/**
 The superblock heap. Memory is one array of bytes; a superblock owns the range
 [addr, addr + 20 + totalSize): a 20-byte header, then the blocks it hands out, the first of which hold its own
 byte map. The header fields are object fields here, the map is read and written in memory.
 */
module Heap {
  import opened Words
  import opened ByteMap
  import opened Memory

  /** sizeof(memblock_t) on the target: five 32-bit words. */
  const HEADER: nat := 20

  /** The smallest identifier from 1 upwards that differs from both arguments. */
  method GenerateIdentifier(x: uint8, y: uint8) returns (z: uint8)
    ensures 1 <= z <= 3 && z != x && z != y && (z > 1 ==> x == 1 || y == 1) && (z > 2 ==> x == 2 || y == 2)
  {
    z := 1;
    while z == x || z == y
      invariant 1 <= z <= 3
      invariant z == 2 ==> x == 1 || y == 1
      invariant z == 3 ==> (x == 1 && y == 2) || (x == 2 && y == 1)
      decreases 3 - z
    {
      z := z + 1;
    }
  }

  class MemBlock {
    const addr: nat
    const next: MemBlock?
    const totalSize: nat
    const blockSize: pos
    var used: uint32

    constructor (addr: nat, next: MemBlock?, totalSize: nat, blockSize: pos)
      ensures this.addr == addr && this.next == next && this.totalSize == totalSize && this.blockSize == blockSize
    {
      this.addr, this.next, this.totalSize, this.blockSize := addr, next, totalSize, blockSize;
      used := 0;
    }

    /** Address of the first block, &sblock[1]; also where the map starts. */
    function Base(): nat { addr + HEADER }

    /** First address after the superblock, before any 32-bit wrap. */
    function End(): nat { addr + HEADER + totalSize }

    function BlockCount(): (c: nat)
      ensures c <= totalSize
    {
      DivBounds(totalSize, blockSize);
      GrowsBy(Div(totalSize, blockSize), blockSize);
      Div(totalSize, blockSize)
    }

    /** Blocks that the map itself occupies. */
    function Reserved(): (r: nat)
      ensures r <= BlockCount() && (BlockCount() > 0 ==> r > 0)
    {
      CeilBounds(BlockCount(), blockSize);
      GrowsBy(BlockCount(), blockSize);
      MulOne(blockSize);
      Ceil(BlockCount(), blockSize)
    }

    static lemma GrowsBy(c: nat, unit: pos)
      ensures c <= Mul(c, unit)
    {
    }

    /** The blocks fit in the superblock and the map fits in the blocks it reserves. */
    lemma BlockFacts()
      ensures Mul(BlockCount(), blockSize) <= totalSize
      ensures BlockCount() <= Mul(Reserved(), blockSize)
    {
      DivBounds(totalSize, blockSize);
      CeilBounds(BlockCount(), blockSize);
    }

    /** n blocks from block i on end inside the superblock. */
    lemma BlocksFit(i: nat, n: nat)
      requires i + n <= BlockCount()
      ensures Mul(i, blockSize) + Mul(n, blockSize) <= totalSize
    {
      hide Mul, BlockCount;
      BlockFacts();
      MulMono(i + n, BlockCount(), blockSize);
      MulAdd(i, n, blockSize);
    }

    /** The superblock lies in the address space, not at NULL, and CEILING cannot wrap on it. */
    ghost predicate Geometry() {
      0 < addr && End() <= WORD && totalSize + blockSize <= WORD
    }

    /** This superblock's map, as it stands in memory. */
    ghost function Map(bytes: Bytes): (m: Bytes)
      ensures Geometry() && |bytes| == WORD ==> |m| == BlockCount()
    {
      if Geometry() && |bytes| == WORD then bytes[Base()..Base() + BlockCount()] else []
    }

    /** What every operation keeps for one superblock: its map is in order and the counter agrees with it. */
    ghost predicate Ok(bytes: Bytes, used: int) {
      var m := Map(bytes);
      && |bytes| == WORD
      && Geometry()
      && used == Used(m)
      && (BlockCount() > 0 ==> Run(m, 0, Reserved()))
      && (forall k :: 0 <= k < |m| ==> m[k] <= 3)
    }

    /** Writing inside the map changes the map alone. */
    lemma MapWrite(bytes: Bytes, i: nat, n: nat, c: uint8)
      requires Geometry() && |bytes| == WORD && i + n <= BlockCount()
      ensures Map(Fill(bytes, Base() + i, n, c)) == Fill(Map(bytes), i, n, c)
    {
      hide BlockCount;
    }

    /** Writing outside the superblock does not reach its map. */
    lemma MapUntouched(bytes: Bytes, a: nat, n: nat, c: uint8)
      requires a + n <= |bytes| && (a + n <= addr || End() <= a)
      ensures Map(Fill(bytes, a, n, c)) == Map(bytes)
    {
      hide BlockCount;
    }

    /** Nor does any change of memory outside the superblock. */
    lemma MapKept(bytes: Bytes, bytes': Bytes, at: nat, n: nat)
      requires SameOutside(bytes, bytes', at, n) && (at + n <= addr || End() <= at)
      ensures Map(bytes') == Map(bytes)
    {
      hide BlockCount;
    }

    lemma MapAt(bytes: Bytes, i: nat)
      requires Geometry() && |bytes| == WORD && i < BlockCount()
      ensures Map(bytes)[i] == bytes[Base() + i]
    {
    }

    // ----- initialisation ----------------------------------------------------------------------

    /** The bytes after memheap_add_block set up this superblock's map. */
    ghost function Initialised(bytes: Bytes): (r: Bytes)
      requires |bytes| == WORD && End() <= WORD
      ensures |r| == WORD
    {
      Fill(Fill(bytes, Base(), BlockCount(), FREE), Base(), Reserved(), 1)
    }

    /** The map set-up of memheap_add_block: all free, then the map's own blocks reserved. */
    method InitMap(mem: array<uint8>)
      requires mem.Length == WORD && End() <= WORD
      modifies this`used, mem
      ensures mem[..] == Initialised(old(mem[..])) && used == Reserved()
    {
      hide BlockCount, Reserved, Ceil;
      var blockCount := BlockCount();
      Memset(mem, Base(), FREE, blockCount);
      blockCount := Reserved();
      Memset(mem, Base(), 1, blockCount);
      used := blockCount;
    }

    lemma InitialisedOk(bytes: Bytes)
      requires |bytes| == WORD && Geometry()
      ensures Map(Initialised(bytes)) == FreshMap(BlockCount(), Reserved())
      ensures Ok(Initialised(bytes), Reserved())
    {
      hide BlockCount, Reserved;
      InitialisedMap(bytes);
      FreshMapFacts(BlockCount(), Reserved());
    }

    lemma InitialisedMap(bytes: Bytes)
      requires |bytes| == WORD && Geometry()
      ensures Map(Initialised(bytes)) == FreshMap(BlockCount(), Reserved())
    {
      hide BlockCount, Reserved, Map, FreshMap;
      MapLength(bytes);
      MapWrite(bytes, 0, BlockCount(), FREE);
      MapWrite(Fill(bytes, Base(), BlockCount(), FREE), 0, Reserved(), 1);
      FreshMapIs(Map(bytes), Reserved());
    }

    /** Exact capacity of a fresh superblock, for any size, header position and block size. */
    lemma FreshCapacity(bytes: Bytes, size: nat)
      requires |bytes| == WORD && Geometry() && 0 < size
      ensures Full(Map(Initialised(bytes)), Wanted(size)) <==> Ceil(size, blockSize) > BlockCount() - Reserved()
    {
      hide BlockCount, Reserved, Mul;
      CeilBounds(size, blockSize);
      InitialisedMap(bytes);
      hide Ceil;
      FreshMapCapacity(BlockCount(), Reserved(), Wanted(size));
    }

    lemma MapLength(bytes: Bytes)
      requires |bytes| == WORD && Geometry()
      ensures |Map(bytes)| == BlockCount()
    {
    }

    // ----- allocation --------------------------------------------------------------------------

    /** Number of blocks whose absence makes a request fail: a zero-size request still looks for one block. */
    function Wanted(size: nat): (w: nat)
      ensures w > 0
    {
      var c := Ceil(size, blockSize);
      if c == 0 then 1 else c
    }

    /** used * blockSize never exceeds totalSize, so the size guard does not underflow. */
    lemma UsedFits(m: Bytes)
      requires |m| == BlockCount()
      ensures Mul(Used(m), blockSize) <= totalSize
    {
      hide Mul, BlockCount;
      BlockFacts();
      MulMono(Used(m), BlockCount(), blockSize);
    }

    /** The size guard of memheap_alloc skips this superblock only if it has no room anyway. */
    lemma GuardIsExact(m: Bytes, size: nat)
      requires |m| == BlockCount() && size > totalSize - Mul(Used(m), blockSize)
      ensures Full(m, Wanted(size))
    {
      hide Mul, BlockCount, Ceil;
      UsedFits(m);
      forall j: nat
        ensures !FreeRun(m, j, Wanted(size))
      {
        if FreeRun(m, j, Wanted(size)) {
          FreeRunIsUnused(m, j, Wanted(size));
          CeilBounds(size, blockSize);
          MulMono(Ceil(size, blockSize), Wanted(size), blockSize);
          BlocksFit(Used(m), Wanted(size));
          assert false;
        }
      }
    }

    /**
     One round of memheap_alloc's outer loop, up to the claim: the size guard, then the scan. A zero-size request
     looks for one free block.
     */
    method Probe(mem: array<uint8>, size: uint32) returns (found: bool, at: nat)
      requires Ok(mem[..], used)
      ensures found ==> FirstFit(Map(mem[..]), Wanted(size), at)
      ensures found ==> FreeRun(Map(mem[..]), at, Ceil(size, blockSize))
      ensures !found ==> Full(Map(mem[..]), Wanted(size))
    {
      hide Mul, BlockCount, Reserved, Ceil, Used;
      UsedFits(Map(mem[..]));
      if size <= totalSize - Mul(used, blockSize) {
        found, at := FindFit(mem, Ceil(size, blockSize), size);
      } else {
        GuardIsExact(Map(mem[..]), size);
        found, at := false, 0;
      }
    }

    /** The scan over the map: the lowest position with enough free blocks, although whole short runs are skipped. */
    method FindFit(mem: array<uint8>, blocksNeeded: nat, ghost size: nat) returns (found: bool, at: nat)
      requires Ok(mem[..], used) && blocksNeeded == Ceil(size, blockSize)
      ensures found ==> FirstFit(Map(mem[..]), Wanted(size), at)
      ensures found ==> FreeRun(Map(mem[..]), at, blocksNeeded)
      ensures !found ==> Full(Map(mem[..]), Wanted(size))
    {
      hide BlockCount, Reserved, Ceil, Used;
      ghost var m := Map(mem[..]);
      var blockCount := BlockCount();
      at := 0;
      while at < blockCount
        invariant 0 <= at <= blockCount
        invariant forall j: nat :: j < at ==> !FreeRun(m, j, Wanted(size))
        decreases blockCount - at
      {
        assert m[at] == mem[Base() + at];
        if mem[Base() + at] == FREE {
          var n := FreeBlocksFrom(mem, at, blocksNeeded);
          if n == blocksNeeded {
            return true, at;
          }
          NothingFitsBefore(m, at, n, Wanted(size));
          at := at + (n - 1);
        }
        at := at + 1;
      }
      found := false;
    }

    /** A short free run is skipped as a whole: no position in it, nor its end, starts a long enough run. */
    lemma NothingFitsBefore(m: Bytes, at: nat, n: nat, wanted: nat)
      requires n < wanted && at + n <= |m| && (at + n == |m| || m[at + n] != FREE)
      ensures forall j: nat :: at <= j <= at + n ==> !FreeRun(m, j, wanted)
    {
    }

    /** The inner scan: free blocks from `at` on, at most `limit`. The entry past the map is read but never trusted. */
    method FreeBlocksFrom(mem: array<uint8>, at: nat, limit: nat) returns (n: nat)
      requires mem.Length == WORD && Geometry() && at < BlockCount()
      ensures n <= limit && FreeRun(Map(mem[..]), at, n)
      ensures n == limit || at + n == BlockCount() || Map(mem[..])[at + n] != FREE
    {
      hide BlockCount, Load;
      ghost var m := Map(mem[..]);
      n := 0;
      while Load(mem, Base() + at + n) == FREE && n < limit && at + n < BlockCount()
        invariant n <= limit && FreeRun(m, at, n)
        decreases limit - n
      {
        MapAt(mem[..], at + n);
        n := n + 1;
      }
      if at + n < BlockCount() {
        MapAt(mem[..], at + n);
      }
    }

    /** The outcome of a successful allocation: the lowest fit, claimed under an identifier neither neighbour has. */
    ghost predicate Claimed(m: Bytes, size: nat, ptr: nat, i: nat, id: uint8) {
      var need := Ceil(size, blockSize);
      && i + need <= |m|
      && FirstFit(m, Wanted(size), i)
      && FreeRun(m, i, need)
      && Distinguishes(m, i, need, id)
      && Reserved() <= i
      && ptr == Base() + Mul(i, blockSize)
      && ptr + Mul(need, blockSize) <= End()
    }

    /** Writes a distinguishing identifier over the free blocks at i and counts them. */
    method Claim(mem: array<uint8>, ghost size: nat, i: nat, n: nat) returns (ptr: nat, ghost id: uint8)
      requires Ok(mem[..], used) && n == Ceil(size, blockSize)
      requires FirstFit(Map(mem[..]), Wanted(size), i) && FreeRun(Map(mem[..]), i, n)
      modifies this`used, mem
      ensures Ok(mem[..], used)
      ensures Claimed(old(Map(mem[..])), size, ptr, i, id)
      ensures mem[..] == Fill(old(mem[..]), Base() + i, n, id)
    {
      hide Mul, BlockCount, Reserved, Ceil, Used, Ok, Claimed, FirstFit, Distinguishes, Map;
      ghost var bytes := mem[..];
      BeforeClaim(bytes, used, size, i, n);
      var z := PickIdentifier(mem, i, n);
      id := z;
      ClaimKeepsOk(bytes, used, i, n, id);
      ptr := Mul(i, blockSize) + Base();
      ClaimIsClaimed(Map(bytes), size, ptr, i, n, id);
      Memset(mem, Base() + i, z, n);
      used := used + n;
    }

    /** An identifier that neither neighbour carries; the entry past the map may be read, whatever it holds. */
    method PickIdentifier(mem: array<uint8>, i: nat, n: nat) returns (z: uint8)
      requires mem.Length == WORD && Geometry() && 0 < i && i + n <= BlockCount()
      ensures Distinguishes(Map(mem[..]), i, n, z)
    {
      hide BlockCount, Load;
      MapAt(mem[..], i - 1);
      if i + n < BlockCount() {
        MapAt(mem[..], i + n);
      }
      z := GenerateIdentifier(mem[Base() + i - 1], Load(mem, Base() + i + n));
    }

    lemma BeforeClaim(bytes: Bytes, u: int, size: nat, i: nat, n: nat)
      requires Ok(bytes, u) && FirstFit(Map(bytes), Wanted(size), i) && FreeRun(Map(bytes), i, n)
      ensures |bytes| == WORD && Geometry() && |Map(bytes)| == BlockCount() && i + n <= BlockCount()
      ensures FreeRun(Map(bytes), i, 1) && Reserved() <= i && 0 < i
      ensures u + n <= BlockCount()
    {
      hide BlockCount, Reserved, Ceil, Used;
      assert Map(bytes)[i] == FREE;
      FreeRunIsUnused(Map(bytes), i, n);
    }

    lemma ClaimIsClaimed(m: Bytes, size: nat, ptr: nat, i: nat, n: nat, id: uint8)
      requires |m| == BlockCount() && n == Ceil(size, blockSize) && ptr == Base() + Mul(i, blockSize)
      requires FirstFit(m, Wanted(size), i) && FreeRun(m, i, n) && Distinguishes(m, i, n, id) && Reserved() <= i
      ensures Claimed(m, size, ptr, i, id)
    {
      hide Mul, BlockCount, Reserved, Ceil;
      BlocksFit(i, n);
    }

    lemma ClaimKeepsOk(bytes: Bytes, u: int, i: nat, n: nat, id: uint8)
      requires Ok(bytes, u)
      requires FreeRun(Map(bytes), i, 1) && FreeRun(Map(bytes), i, n) && Distinguishes(Map(bytes), i, n, id)
      ensures Ok(Fill(bytes, Base() + i, n, id), u + n)
    {
      hide BlockCount, Reserved, Used;
      var m := Map(bytes);
      MapWrite(bytes, i, n, id);
      UsedFill(m, i, n, id);
      if n > 0 {
        ClaimAddsOneRun(m, i, n, id);
      } else {
        assert Fill(m, i, n, id) == m;
      }
    }

    // ----- release -----------------------------------------------------------------------------

    /** The range test of memheap_free, with the 32-bit end address of the source. */
    predicate Owns(ptr: nat) {
      addr < ptr < Wrap(End())
    }

    /** A run's blocks lie inside the superblock, which recognises their addresses unless its end wraps. */
    lemma RunIsInside(m: Bytes, s: nat, n: nat)
      requires Geometry() && |m| == BlockCount() && Run(m, s, n)
      ensures addr < Base() + Mul(s, blockSize) < Base() + Mul(s, blockSize) + Mul(n, blockSize) <= End()
      ensures Owns(Base() + Mul(s, blockSize)) <==> End() < WORD
    {
      hide Mul, BlockCount;
      BlocksFit(s, n);
      MulMono(1, n, blockSize);
      MulOne(blockSize);
    }

    /** What holds of a live allocation before it is released. */
    lemma LiveFacts(bytes: Bytes, u: int, s: nat, n: nat)
      requires Ok(bytes, u) && 0 < s && Run(Map(bytes), s, n)
      ensures Geometry() && s < s + n <= BlockCount()
      ensures SameFrom(Map(bytes), s) == n && Wrap(u - n) == u - n
      ensures addr < Base() + Mul(s, blockSize) < End()
      ensures Owns(Base() + Mul(s, blockSize)) <==> End() < WORD
    {
      hide Mul, BlockCount, Reserved, Used, SameFrom, Wrap, Owns;
      ReleaseKeepsOk(bytes, u, s, n);
      RunIsInside(Map(bytes), s, n);
      WrapSmall(u - n);
    }

    /** The clearing loop of memheap_free: wipes the entries that repeat the identifier at s, and counts them. */
    method ClearRun(mem: array<uint8>, s: nat) returns (n: nat)
      requires mem.Length == WORD && Geometry() && s < BlockCount()
      modifies mem
      ensures n == SameFrom(old(Map(mem[..])), s) && s + n <= BlockCount()
      ensures mem[..] == Fill(old(mem[..]), Base() + s, n, FREE)
    {
      hide BlockCount, SameFrom, Load;
      ghost var bytes := mem[..];
      ghost var m := Map(bytes);
      MapAt(bytes, s);
      var id := mem[Base() + s];
      var blockOffset := s;
      while Load(mem, Base() + blockOffset) == id && blockOffset < BlockCount()
        invariant s <= blockOffset <= BlockCount()
        invariant forall k :: s <= k < blockOffset ==> m[k] == id
        invariant forall k :: 0 <= k < WORD ==>
                    mem[k] == if Base() + s <= k < Base() + blockOffset then FREE else bytes[k]
        decreases BlockCount() - blockOffset
      {
        MapAt(bytes, blockOffset);
        mem[Base() + blockOffset] := 0;
        blockOffset := blockOffset + 1;
      }
      if blockOffset < BlockCount() {
        MapAt(bytes, blockOffset);
      }
      SameFromIs(m, s, blockOffset - s);
      n := blockOffset - s;
    }

    /** memheap_free's work on the superblock that owns ptr, the address of block s. */
    method Release(mem: array<uint8>, ptr: nat, ghost s: nat) returns (ghost n: nat)
      requires mem.Length == WORD && Geometry()
      requires s < BlockCount() && ptr == Base() + Mul(s, blockSize)
      modifies this`used, mem
      ensures n == SameFrom(old(Map(mem[..])), s) && s + n <= BlockCount()
      ensures mem[..] == Fill(old(mem[..]), Base() + s, n, FREE)
      ensures used == Wrap(old(used) - n)
    {
      hide Mul, Div, BlockCount, SameFrom, Wrap, Map, Fill;
      DivExact(s, blockSize);
      var blockStart := Div(ptr - Base(), blockSize);
      var walked := ClearRun(mem, blockStart);
      used := Wrap(used - walked);
      n := walked;
    }

    /** Releasing an allocation keeps the superblock in order. */
    lemma ReleaseKeepsOk(bytes: Bytes, u: int, s: nat, n: nat)
      requires Ok(bytes, u) && 0 < s && Run(Map(bytes), s, n)
      ensures SameFrom(Map(bytes), s) == n && n <= u <= |Map(bytes)|
      ensures Ok(Fill(bytes, Base() + s, n, FREE), u - n)
    {
      hide BlockCount, Reserved, Used, SameFrom;
      var m := Map(bytes);
      SameFromIs(m, s, n);
      MapWrite(bytes, s, n, FREE);
      UsedFill(m, s, n, FREE);
      ReleaseRemovesOneRun(m, s, n);
    }
  }

  class MemHeap {
    const mem: array<uint8>
    var head: MemBlock?
    /** The superblocks reachable from head, in list order. */
    ghost var blocks: seq<MemBlock>

    /** Superblock j of the list, or NULL past its end. */
    ghost function Nth(j: nat): MemBlock?
      reads this
    {
      if j < |blocks| then blocks[j] else null
    }

    ghost predicate Chained()
      reads this
    {
      head == Nth(0) && forall j: nat {:trigger blocks[j].next} :: j < |blocks| ==> blocks[j].next == Nth(j + 1)
    }

    static ghost predicate Apart(b: MemBlock, c: MemBlock) {
      b.End() <= c.addr || c.End() <= b.addr
    }

    ghost predicate AllApart()
      reads this
    {
      forall i, j :: 0 <= i < j < |blocks| ==> Apart(blocks[i], blocks[j])
    }

    ghost predicate AllOk()
      reads this, mem, blocks`used
    {
      forall j :: 0 <= j < |blocks| ==> blocks[j].Ok(mem[..], blocks[j].used)
    }

    ghost predicate Valid()
      reads this, mem, blocks`used
    {
      mem.Length == WORD && Chained() && AllApart() && AllOk()
    }

    /** The blocks [s, s+n) of superblock j are one allocation; the run at 0 is the map's own reservation. */
    ghost predicate Live(bytes: Bytes, j: nat, s: nat, n: nat)
      reads this
    {
      j < |blocks| && 0 < s && Run(blocks[j].Map(bytes), s, n)
    }

    constructor (mem: array<uint8>)
      requires mem.Length == WORD
      ensures this.mem == mem && Valid() && blocks == []
    {
      this.mem := mem;
      head := null;
      blocks := [];
    }

    /** memheap_add_block. A superblock at address 0 becomes the list head NULL: the whole list is lost. */
    method AddBlock(addr: nat, size: nat, blockSize: pos)
      requires Valid()
      requires HEADER <= size && addr + size <= WORD && size - HEADER + blockSize <= WORD
      requires forall j :: 0 <= j < |blocks| ==> addr + size <= blocks[j].addr || blocks[j].End() <= addr
      modifies this, mem
      ensures Valid()
      ensures addr == 0 ==> blocks == []
      ensures addr != 0 ==>
        && |blocks| > 0 && blocks[1..] == old(blocks) && fresh(blocks[0])
        && blocks[0].addr == addr && blocks[0].totalSize == size - HEADER && blocks[0].blockSize == blockSize
        && mem[..] == blocks[0].Initialised(old(mem[..]))
    {
      hide Mul, MemBlock.BlockCount, MemBlock.Reserved, MemBlock.Ok, MemBlock.Initialised, MemBlock.Map, Ceil, Used;
      ghost var bytes := mem[..];
      var sblock := new MemBlock(addr, head, size - HEADER, blockSize);
      sblock.InitMap(mem);
      OthersUntouched(bytes, sblock);
      if addr == 0 {
        head := null;
        blocks := [];
      } else {
        sblock.InitialisedOk(bytes);
        head := sblock;
        blocks := [sblock] + blocks;
        assert forall j :: 1 <= j < |blocks| ==> blocks[j] == old(blocks)[j - 1];
      }
    }

    /** Changes outside every superblock reach no map. */
    lemma OutsideKept(bytes: Bytes, bytes': Bytes, at: nat, n: nat)
      requires |bytes| == WORD && SameOutside(bytes, bytes', at, n)
      requires forall j :: 0 <= j < |blocks| ==> at + n <= blocks[j].addr || blocks[j].End() <= at
      ensures forall j, u :: 0 <= j < |blocks| && blocks[j].Ok(bytes, u) ==> blocks[j].Ok(bytes', u)
    {
      hide MemBlock.BlockCount, MemBlock.Reserved, Used;
      forall j | 0 <= j < |blocks|
        ensures blocks[j].Map(bytes') == blocks[j].Map(bytes)
      {
        blocks[j].MapKept(bytes, bytes', at, n);
      }
    }

    /** Setting up a new superblock reaches no existing map. */
    lemma OthersUntouched(bytes: Bytes, b: MemBlock)
      requires |bytes| == WORD && b.End() <= WORD
      requires forall j :: 0 <= j < |blocks| ==> Apart(b, blocks[j])
      ensures forall j :: 0 <= j < |blocks| ==> blocks[j].Map(b.Initialised(bytes)) == blocks[j].Map(bytes)
      ensures forall j, u :: 0 <= j < |blocks| && blocks[j].Ok(bytes, u) ==> blocks[j].Ok(b.Initialised(bytes), u)
    {
      hide MemBlock.BlockCount, MemBlock.Reserved, Used;
      forall j | 0 <= j < |blocks|
        ensures blocks[j].Map(b.Initialised(bytes)) == blocks[j].Map(bytes)
      {
        blocks[j].MapUntouched(bytes, b.Base(), b.BlockCount(), FREE);
        blocks[j].MapUntouched(Fill(bytes, b.Base(), b.BlockCount(), FREE), b.Base(), b.Reserved(), 1);
      }
    }

    /** A write inside one superblock's map reaches no other superblock. */
    lemma OthersKept(bytes: Bytes, j: nat, i: nat, n: nat, c: uint8)
      requires |bytes| == WORD && AllApart() && j < |blocks| && blocks[j].Geometry() && i + n <= blocks[j].BlockCount()
      ensures forall k :: 0 <= k < |blocks| && k != j ==>
                blocks[k].Map(Fill(bytes, blocks[j].Base() + i, n, c)) == blocks[k].Map(bytes)
      ensures forall k, u :: 0 <= k < |blocks| && k != j && blocks[k].Ok(bytes, u) ==>
                blocks[k].Ok(Fill(bytes, blocks[j].Base() + i, n, c), u)
    {
      hide MemBlock.BlockCount, MemBlock.Reserved, Used;
      forall k | 0 <= k < |blocks| && k != j
        ensures blocks[k].Map(Fill(bytes, blocks[j].Base() + i, n, c)) == blocks[k].Map(bytes)
      {
        assert Apart(blocks[j], blocks[k]);
        blocks[k].MapUntouched(bytes, blocks[j].Base() + i, n, c);
      }
    }

    /** The outer loop of memheap_alloc: the first superblock with room, and the position of the fit in it. */
    method FindRoom(size: uint32) returns (sblock: MemBlock?, at: nat, ghost j: nat)
      requires Valid()
      ensures j <= |blocks| && sblock == Nth(j)
      ensures forall k :: 0 <= k < j ==> Full(blocks[k].Map(mem[..]), blocks[k].Wanted(size))
      ensures sblock != null ==>
        && FirstFit(sblock.Map(mem[..]), sblock.Wanted(size), at)
        && FreeRun(sblock.Map(mem[..]), at, Ceil(size, sblock.blockSize))
    {
      hide Mul, MemBlock.BlockCount, MemBlock.Reserved, MemBlock.Ok, Ceil, Used, Full, FirstFit, FreeRun;
      sblock, at, j := head, 0, 0;
      while sblock != null
        invariant j <= |blocks| && sblock == Nth(j)
        invariant forall k :: 0 <= k < j ==> Full(blocks[k].Map(mem[..]), blocks[k].Wanted(size))
        decreases |blocks| - j
      {
        var found;
        found, at := sblock.Probe(mem, size);
        if found {
          return;
        }
        j := j + 1;
        sblock := sblock.next;
      }
    }

    /**
     memheap_alloc: the first superblock in list order that can serve the request, blocks[j], serves it; 0 exactly
     when none can. All that changes in memory is the stretch of that superblock's map that the allocation claims.
     */
    method Alloc(size: uint32) returns (ptr: nat, ghost j: nat, ghost i: nat, ghost id: uint8)
      requires Valid()
      modifies mem, blocks`used
      ensures Valid()
      ensures ptr == 0 ==> mem[..] == old(mem[..]) && NoRoom(old(mem[..]), |blocks|, size)
      ensures ptr != 0 ==>
        && j < |blocks| && NoRoom(old(mem[..]), j, size)
        && blocks[j].Claimed(blocks[j].Map(old(mem[..])), size, ptr, i, id)
        && mem[..] == Fill(old(mem[..]), blocks[j].Base() + i, Ceil(size, blocks[j].blockSize), id)
    {
      hide Mul, MemBlock.BlockCount, MemBlock.Reserved, MemBlock.Ok, Ceil, Used, Full, FirstFit, FreeRun;
      ghost var bytes := mem[..];
      i, id := 0, 0;
      var sblock, at;
      sblock, at, j := FindRoom(size);
      if sblock == null {
        ptr := 0;
      } else {
        i := at;
        OkGeometry(j);
        ptr, id := sblock.Claim(mem, size, at, Ceil(size, sblock.blockSize));
        OthersKept(bytes, j, at, Ceil(size, sblock.blockSize), id);
        DistinctBlocks();
      }
    }

    lemma OkGeometry(j: nat)
      requires AllOk() && j < |blocks|
      ensures blocks[j].Geometry() && |blocks[j].Map(mem[..])| == blocks[j].BlockCount()
    {
    }

    lemma DistinctBlocks()
      requires AllApart()
      ensures forall i, j :: 0 <= i < j < |blocks| ==> blocks[i] != blocks[j]
    {
    }

    /** None of the first n superblocks can serve the request. */
    ghost predicate NoRoom(bytes: Bytes, n: nat, size: nat)
      requires n <= |blocks|
      reads this
    {
      forall k :: 0 <= k < n ==> Full(blocks[k].Map(bytes), blocks[k].Wanted(size))
    }

    /**
     memheap_free of a live allocation, the blocks [s, s+n) of blocks[j]. Only a superblock whose end does not wrap
     recognises its pointers: then exactly these blocks become free, otherwise nothing happens.
     */
    method Free(ptr: nat, ghost j: nat, ghost s: nat, ghost n: nat)
      requires Valid() && Live(mem[..], j, s, n)
      requires ptr == blocks[j].Base() + Mul(s, blocks[j].blockSize)
      modifies mem, blocks`used
      ensures Valid()
      ensures mem[..] ==
              if blocks[j].End() < WORD then Fill(old(mem[..]), blocks[j].Base() + s, n, FREE) else old(mem[..])
    {
      hide Mul, MemBlock.BlockCount, MemBlock.Ok, MemBlock.Map, MemBlock.Owns, MemBlock.Geometry, Run, SameFrom, Wrap;
      ghost var bytes, u := mem[..], blocks[j].used;
      BeforeRelease(ptr, j, s, n);
      WalkAndRelease(ptr, j, s, n);
      AfterRelease(bytes, j, s, n, u);
    }

    /** The loop of memheap_free, which never stops early, when only blocks[j] can recognise the pointer. */
    method WalkAndRelease(ptr: nat, ghost j: nat, ghost s: nat, ghost n: nat)
      requires mem.Length == WORD && Chained() && j < |blocks| && blocks[j].Geometry()
      requires s + n <= blocks[j].BlockCount() && ptr == blocks[j].Base() + Mul(s, blocks[j].blockSize)
      requires s < blocks[j].BlockCount() && SameFrom(blocks[j].Map(mem[..]), s) == n
      requires forall k :: 0 <= k < |blocks| && k != j ==> blocks[k] != blocks[j] && !blocks[k].Owns(ptr)
      modifies mem, blocks`used
      ensures forall k :: 0 <= k < |blocks| && k != j ==> blocks[k].used == old(blocks[k].used)
      ensures if blocks[j].Owns(ptr)
              then mem[..] == Fill(old(mem[..]), blocks[j].Base() + s, n, FREE) && blocks[j].used == Wrap(old(blocks[j].used) - n)
              else mem[..] == old(mem[..]) && blocks[j].used == old(blocks[j].used)
    {
      hide Mul, MemBlock.BlockCount, MemBlock.Map, MemBlock.Owns, SameFrom, Wrap;
      var sblock := head;
      ghost var at := 0;
      while sblock != null
        invariant at <= |blocks| && sblock == Nth(at)
        invariant at <= j ==> mem[..] == old(mem[..]) && blocks[j].used == old(blocks[j].used)
        invariant at > j ==> if blocks[j].Owns(ptr)
              then mem[..] == Fill(old(mem[..]), blocks[j].Base() + s, n, FREE) && blocks[j].used == Wrap(old(blocks[j].used) - n)
              else mem[..] == old(mem[..]) && blocks[j].used == old(blocks[j].used)
        invariant forall k :: 0 <= k < |blocks| && k != j ==> blocks[k].used == old(blocks[k].used)
        decreases |blocks| - at
      {
        if sblock.Owns(ptr) {
          var _ := sblock.Release(mem, ptr, s);
        }
        at := at + 1;
        sblock := sblock.next;
      }
    }

    /** On a live start, blocks[j] alone recognises the pointer, and the run there has the allocation's length. */
    lemma BeforeRelease(ptr: nat, j: nat, s: nat, n: nat)
      requires Valid() && Live(mem[..], j, s, n) && ptr == blocks[j].Base() + Mul(s, blocks[j].blockSize)
      ensures forall k :: 0 <= k < |blocks| ==> (blocks[k].Owns(ptr) <==> k == j && blocks[j].End() < WORD)
      ensures forall i, k :: 0 <= i < k < |blocks| ==> blocks[i] != blocks[k]
      ensures blocks[j].Geometry() && s < s + n <= blocks[j].BlockCount()
      ensures SameFrom(blocks[j].Map(mem[..]), s) == n
      ensures Wrap(blocks[j].used - n) == blocks[j].used - n
    {
      hide Mul, MemBlock.BlockCount, MemBlock.Ok, MemBlock.Map, MemBlock.Owns, Run, SameFrom, Wrap;
      blocks[j].LiveFacts(mem[..], blocks[j].used, s, n);
      OnlyOwner(j, ptr);
      DistinctBlocks();
    }

    lemma OnlyOwner(j: nat, ptr: nat)
      requires AllApart() && j < |blocks| && blocks[j].addr < ptr < blocks[j].End()
      ensures forall k :: 0 <= k < |blocks| && k != j ==> !blocks[k].Owns(ptr)
    {
      forall k | 0 <= k < |blocks| && k != j
        ensures !blocks[k].Owns(ptr)
      {
        assert Apart(blocks[k], blocks[j]);
      }
    }

    lemma AfterRelease(bytes: Bytes, j: nat, s: nat, n: nat, u: int)
      requires mem.Length == WORD && AllApart() && j < |blocks| && blocks[j].Ok(bytes, u)
      requires forall k :: 0 <= k < |blocks| && k != j ==> blocks[k].Ok(bytes, blocks[k].used)
      requires 0 < s && Run(blocks[j].Map(bytes), s, n)
      requires if blocks[j].End() < WORD
               then mem[..] == Fill(bytes, blocks[j].Base() + s, n, FREE) && blocks[j].used == u - n
               else mem[..] == bytes && blocks[j].used == u
      ensures AllOk()
    {
      hide Mul, MemBlock.BlockCount, MemBlock.Ok, MemBlock.Map, Run, SameFrom, Wrap;
      blocks[j].LiveFacts(bytes, u, s, n);
      blocks[j].ReleaseKeepsOk(bytes, u, s, n);
      OthersKept(bytes, j, s, n, FREE);
    }
  }
}
