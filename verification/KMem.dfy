/**
 kmalloc and kfree: the superblock heap fed with pages. The clients' view is a map from live pointers to requested
 sizes; the invariant places every live allocation in one superblock, as one run of its byte map.
 */
module KMem {
  import opened Words
  import opened ByteMap
  import opened Memory
  import opened Heap
  import opened Paging
  import opened PageAlloc

  /** Block size of the kernel heap. */
  const UNIT: pos := 16
  /** The last page of the address space. */
  const LAST_PAGE: nat := 0xFFC0_0000
  /** What a fresh superblock can hold in one piece. */
  const LARGEST_REQUEST: nat := 3932128

  datatype AllocResult = Allocated(ptr: nat) | Panic

  /** Where a live allocation sits: first block s of the superblock b. */
  datatype Place = Place(b: MemBlock, s: nat) {
    ghost function Ptr(): nat { b.Base() + Mul(s, UNIT) }
  }

  /** Distinct superblocks of 16-byte blocks that do not overlap. */
  ghost predicate Layout(blocks: seq<MemBlock>) {
    && (forall b :: b in blocks ==> b.Geometry() && b.blockSize == UNIT)
    && (forall b, c :: b in blocks && c in blocks && b != c ==> MemHeap.Apart(b, c))
  }

  /** Allocation pl holds `size` bytes: its blocks are exactly one run of its superblock's map. */
  ghost predicate Holds(bytes: Bytes, pl: Place, size: nat) {
    0 < pl.s && 0 < size && Run(pl.b.Map(bytes), pl.s, Ceil(size, UNIT))
  }

  /**
   The heap implements the clients' view: every live pointer is the address of one run of the requested length, and
   every run past a map's own reservation is a live allocation, unless it is leaked in a superblock whose pointers
   memheap_free cannot recognise.
   */
  ghost predicate Refines(bytes: Bytes, blocks: seq<MemBlock>, live: map<nat, nat>, place: map<nat, Place>) {
    && live.Keys == place.Keys
    && (forall p :: p in live ==> place[p].b in blocks && Holds(bytes, place[p], live[p]) && place[p].Ptr() == p)
    && (forall b, s, n :: b in blocks && 0 < s && Run(b.Map(bytes), s, n) && b.End() < WORD ==>
          Place(b, s).Ptr() in live && place[Place(b, s).Ptr()] == Place(b, s))
  }

  // ----- what refinement means for the clients -----------------------------------------------

  /** A live allocation lies inside its superblock, past the header and the map, and covers the requested size. */
  lemma LiveIsInside(bytes: Bytes, blocks: seq<MemBlock>, pl: Place, size: nat)
    requires |bytes| == WORD && Layout(blocks) && pl.b in blocks && Holds(bytes, pl, size)
    requires Run(pl.b.Map(bytes), 0, pl.b.Reserved())
    ensures pl.b.Base() + pl.b.BlockCount() <= pl.Ptr()
    ensures pl.Ptr() + size <= pl.Ptr() + Mul(Ceil(size, UNIT), UNIT) <= pl.b.End()
  {
    var b := pl.b;
    hide MemBlock.BlockCount, MemBlock.Reserved, Mul, Ceil;
    b.RunIsInside(b.Map(bytes), pl.s, Ceil(size, UNIT));
    RunsAreDisjoint(b.Map(bytes), 0, b.Reserved(), pl.s, Ceil(size, UNIT));
    CeilBounds(size, UNIT);
    b.BlockFacts();
    MulMono(b.Reserved(), pl.s, UNIT);
  }

  /** Any two live allocations are disjoint, with all their blocks. */
  lemma LiveAreDisjoint(bytes: Bytes, blocks: seq<MemBlock>, live: map<nat, nat>, place: map<nat, Place>, p: nat, q: nat)
    requires |bytes| == WORD && Layout(blocks) && Refines(bytes, blocks, live, place)
    requires p in live && q in live && p != q
    ensures p + Mul(Ceil(live[p], UNIT), UNIT) <= q || q + Mul(Ceil(live[q], UNIT), UNIT) <= p
  {
    hide MemBlock.BlockCount, Mul, Ceil, Run, MemBlock.Map;
    PlacesAreDisjoint(bytes, blocks, place[p], Ceil(live[p], UNIT), place[q], Ceil(live[q], UNIT));
  }

  lemma PlacesAreDisjoint(bytes: Bytes, blocks: seq<MemBlock>, a: Place, n: nat, c: Place, k: nat)
    requires |bytes| == WORD && Layout(blocks) && a.b in blocks && c.b in blocks && a != c
    requires Run(a.b.Map(bytes), a.s, n) && Run(c.b.Map(bytes), c.s, k)
    ensures a.Ptr() + Mul(n, UNIT) <= c.Ptr() || c.Ptr() + Mul(k, UNIT) <= a.Ptr()
  {
    hide MemBlock.BlockCount, Mul, MemBlock.Map;
    MapHasBlocks(bytes, blocks, a.b);
    MapHasBlocks(bytes, blocks, c.b);
    if a.b == c.b {
      RunsAreDisjoint(a.b.Map(bytes), a.s, n, c.s, k);
      MulAdd(a.s, n, UNIT);
      MulAdd(c.s, k, UNIT);
      if a.s + n <= c.s {
        MulMono(a.s + n, c.s, UNIT);
      } else {
        MulMono(c.s + k, a.s, UNIT);
      }
    } else {
      hide Run;
      a.b.RunIsInside(a.b.Map(bytes), a.s, n);
      c.b.RunIsInside(c.b.Map(bytes), c.s, k);
    }
  }

  lemma MapHasBlocks(bytes: Bytes, blocks: seq<MemBlock>, b: MemBlock)
    requires |bytes| == WORD && Layout(blocks) && b in blocks
    ensures |b.Map(bytes)| == b.BlockCount()
  {
  }

  /** A live allocation meets no superblock's header and no superblock's map. */
  lemma LiveAvoidsMetadata(bytes: Bytes, blocks: seq<MemBlock>, pl: Place, size: nat, b: MemBlock)
    requires |bytes| == WORD && Layout(blocks) && pl.b in blocks && b in blocks && Holds(bytes, pl, size)
    requires Run(pl.b.Map(bytes), 0, pl.b.Reserved())
    ensures pl.Ptr() + Mul(Ceil(size, UNIT), UNIT) <= b.addr || b.Base() + b.BlockCount() <= pl.Ptr()
  {
    hide MemBlock.Reserved, MemBlock.BlockCount, Mul, Ceil, Run;
    LiveIsInside(bytes, blocks, pl, size);
  }

  // ----- steps ---------------------------------------------------------------------------------

  /** An address belongs to at most one place. */
  lemma PtrIsUnique(blocks: seq<MemBlock>, a: Place, c: Place)
    requires Layout(blocks) && a.b in blocks && c.b in blocks && a.Ptr() == c.Ptr()
    requires a.Ptr() < a.b.End() && c.Ptr() < c.b.End()
    ensures a == c
  {
    hide Mul;
    if a.s < c.s {
      MulMono(a.s + 1, c.s, UNIT);
      MulAdd(a.s, 1, UNIT);
      MulOne(UNIT);
    } else if c.s < a.s {
      MulMono(c.s + 1, a.s, UNIT);
      MulAdd(c.s, 1, UNIT);
      MulOne(UNIT);
    }
  }

  /** A new run in one superblock, all other maps unchanged, is a new live allocation at a new address. */
  lemma ClaimRefines(bytes: Bytes, bytes': Bytes, blocks: seq<MemBlock>, live: map<nat, nat>, place: map<nat, Place>,
                     pl: Place, size: nat)
    requires |bytes| == WORD && |bytes'| == WORD && Layout(blocks) && Refines(bytes, blocks, live, place)
    requires pl.b in blocks && 0 < pl.s && 0 < size && FreeRun(pl.b.Map(bytes), pl.s, 1)
    requires forall b :: b in blocks && b != pl.b ==> b.Map(bytes') == b.Map(bytes)
    requires forall s: nat, k: nat :: Run(pl.b.Map(bytes'), s, k) <==>
               Run(pl.b.Map(bytes), s, k) || (s == pl.s && k == Ceil(size, UNIT))
    ensures pl.Ptr() !in live
    ensures Refines(bytes', blocks, live[pl.Ptr() := size], place[pl.Ptr() := pl])
  {
    hide MemBlock.BlockCount, MemBlock.Map, Mul, Ceil, Run, Place.Ptr;
    forall c: Place | c.b in blocks && c.Ptr() == pl.Ptr() && exists n: nat :: Run(c.b.Map(bytes'), c.s, n)
      ensures c == pl
    {
      var n: nat :| Run(c.b.Map(bytes'), c.s, n);
      RunPtrInside(bytes', blocks, c, n);
      RunPtrInside(bytes', blocks, pl, Ceil(size, UNIT));
      PtrIsUnique(blocks, c, pl);
    }
    NoRunAtFree(pl.b.Map(bytes), pl.s);
  }

  /** Removing one run is the end of that allocation alone. */
  lemma ReleaseRefines(bytes: Bytes, bytes': Bytes, blocks: seq<MemBlock>, live: map<nat, nat>, place: map<nat, Place>,
                       p: nat)
    requires |bytes| == WORD && |bytes'| == WORD && Layout(blocks) && Refines(bytes, blocks, live, place)
    requires p in live
    requires forall b :: b in blocks && b != place[p].b ==> b.Map(bytes') == b.Map(bytes)
    requires forall s: nat, k: nat :: Run(place[p].b.Map(bytes'), s, k) <==>
               Run(place[p].b.Map(bytes), s, k) && !(s == place[p].s && k == Ceil(live[p], UNIT))
    ensures Refines(bytes', blocks, live - {p}, place - {p})
  {
    hide MemBlock.BlockCount, MemBlock.Map, Mul, Ceil, Run, Place.Ptr;
    var pl := place[p];
    forall q | q in live && q != p
      ensures Holds(bytes', place[q], live[q])
    {
    }
    forall b, s, n | b in blocks && 0 < s && Run(b.Map(bytes'), s, n) && b.End() < WORD
      ensures Place(b, s).Ptr() != p
    {
      if Place(b, s).Ptr() == p {
        SameRunLength(pl.b.Map(bytes), s, n, Ceil(live[p], UNIT));
      }
    }
  }

  lemma SameRunLength(m: Bytes, s: nat, n: nat, k: nat)
    requires Run(m, s, n) && Run(m, s, k)
    ensures n == k
  {
  }

  /** A leak: in a superblock that does not recognise its pointers the run stays, the allocation is gone. */
  lemma LeakRefines(bytes: Bytes, blocks: seq<MemBlock>, live: map<nat, nat>, place: map<nat, Place>, p: nat)
    requires |bytes| == WORD && Layout(blocks) && Refines(bytes, blocks, live, place)
    requires p in live && place[p].b.End() == WORD
    ensures Refines(bytes, blocks, live - {p}, place - {p})
  {
    hide MemBlock.BlockCount, MemBlock.Map, Mul, Ceil, Run, Place.Ptr;
  }

  /** A new superblock brings no allocation, and a write outside all superblocks changes none. */
  lemma GrowRefines(bytes: Bytes, bytes': Bytes, blocks: seq<MemBlock>, blocks': seq<MemBlock>,
                    live: map<nat, nat>, place: map<nat, Place>)
    requires Refines(bytes, blocks, live, place)
    requires forall b :: b in blocks ==> b in blocks' && b.Map(bytes') == b.Map(bytes)
    requires forall b, s, n :: b in blocks' && b !in blocks && 0 < s ==> !Run(b.Map(bytes'), s, n)
    ensures Refines(bytes', blocks', live, place)
  {
    hide MemBlock.Map, Mul, Ceil, Run, Place.Ptr;
  }

  lemma NoRunAtFree(m: Bytes, s: nat)
    requires FreeRun(m, s, 1)
    ensures forall n: nat :: !Run(m, s, n)
  {
  }

  lemma RunPtrInside(bytes: Bytes, blocks: seq<MemBlock>, pl: Place, n: nat)
    requires |bytes| == WORD && Layout(blocks) && pl.b in blocks && Run(pl.b.Map(bytes), pl.s, n)
    ensures pl.Ptr() < pl.b.End()
  {
    hide MemBlock.BlockCount, Mul;
    pl.b.RunIsInside(pl.b.Map(bytes), pl.s, n);
  }

  /** A write into one superblock's map changes no byte of a live allocation. */
  lemma MapWriteKeepsContents(bytes: Bytes, blocks: seq<MemBlock>, live: map<nat, nat>, place: map<nat, Place>,
                              b: MemBlock, i: nat, n: nat, c: uint8)
    requires |bytes| == WORD && Layout(blocks) && Refines(bytes, blocks, live, place)
    requires b in blocks && i + n <= b.BlockCount()
    requires forall d :: d in blocks && d.BlockCount() > 0 ==> Run(d.Map(bytes), 0, d.Reserved())
    ensures SameContents(bytes, Fill(bytes, b.Base() + i, n, c), live)
  {
    hide MemBlock.BlockCount, MemBlock.Reserved, MemBlock.Map, Mul, Ceil, Run, Place.Ptr;
    forall p, a | p in live && p <= a < p + live[p] && a < WORD
      ensures Fill(bytes, b.Base() + i, n, c)[a] == bytes[a]
    {
      HasBlocks(bytes, blocks, place[p], live[p]);
      LiveIsInside(bytes, blocks, place[p], live[p]);
      LiveAvoidsMetadata(bytes, blocks, place[p], live[p], b);
    }
  }

  lemma HasBlocks(bytes: Bytes, blocks: seq<MemBlock>, pl: Place, size: nat)
    requires |bytes| == WORD && Layout(blocks) && pl.b in blocks && Holds(bytes, pl, size)
    ensures pl.b.BlockCount() > 0
  {
  }

  /** No byte of a live allocation differs. Live allocations lie inside memory (LiveIsInside). */
  ghost predicate SameContents(bytes: Bytes, bytes': Bytes, live: map<nat, nat>) {
    && |bytes| == |bytes'| == WORD
    && forall p, a :: p in live && p <= a < p + live[p] && a < WORD ==> bytes'[a] == bytes[a]
  }

  /** Changes outside every superblock reach no byte of a live allocation and no map. */
  lemma OutsideWriteKeeps(bytes: Bytes, bytes': Bytes, blocks: seq<MemBlock>, live: map<nat, nat>, place: map<nat, Place>,
                          at: nat, n: nat)
    requires |bytes| == WORD && SameOutside(bytes, bytes', at, n) && Layout(blocks) && Refines(bytes, blocks, live, place)
    requires forall d :: d in blocks && d.BlockCount() > 0 ==> Run(d.Map(bytes), 0, d.Reserved())
    requires forall d :: d in blocks ==> at + n <= d.addr || d.End() <= at
    ensures SameContents(bytes, bytes', live)
    ensures forall d :: d in blocks ==> d.Map(bytes') == d.Map(bytes)
  {
    hide MemBlock.BlockCount, MemBlock.Reserved, MemBlock.Map, Mul, Ceil, Run, Place.Ptr;
    forall p, a | p in live && p <= a < p + live[p] && a < WORD
      ensures bytes'[a] == bytes[a]
    {
      HasBlocks(bytes, blocks, place[p], live[p]);
      LiveIsInside(bytes, blocks, place[p], live[p]);
    }
    forall d | d in blocks
      ensures d.Map(bytes') == d.Map(bytes)
    {
      d.MapKept(bytes, bytes', at, n);
    }
  }

  /** Fresh superblocks have room for this many 16-byte blocks. */
  ghost function PageCapacity(): nat {
    Div(PAGE_SIZE - HEADER, UNIT) - Ceil(Div(PAGE_SIZE - HEADER, UNIT), UNIT)
  }

  /** No page is ever given back. */
  ghost predicate KeepsSlots(dir: seq<uint32>, dir': seq<uint32>) {
    |dir| == |dir'| && forall i :: 0 <= i < |dir| && Present(dir[i]) ==> Present(dir'[i])
  }

  /** First fit: the pointer to the lowest long enough free stretch of the first superblock that has one. */
  ghost predicate FirstFitIn(bytes: Bytes, blocks: seq<MemBlock>, sz: nat, ptr: nat) {
    exists j: nat, i: nat :: j < |blocks| && FitsAt(bytes, blocks, sz, j, i) && ptr == blocks[j].addr + 20 + 16 * i
  }

  ghost predicate FitsAt(bytes: Bytes, blocks: seq<MemBlock>, sz: nat, j: nat, i: nat)
    requires j < |blocks|
  {
    && (forall k :: 0 <= k < j ==> Full(blocks[k].Map(bytes), blocks[k].Wanted(sz)))
    && FirstFit(blocks[j].Map(bytes), blocks[j].Wanted(sz), i)
  }

  /** The next page that the cursor finds. */
  ghost predicate NextPage(dir: seq<uint32>, cursor: nat, page: nat)
    requires |dir| == NUM_FRAMES
  {
    exists d: nat {:trigger Ahead(cursor, d)} :: PageAllocator.FirstFreeSlot(dir, cursor, d) && page == Ahead(cursor, d)
  }

  class KernelMemory {
    const mem: array<uint8>
    const heap: MemHeap
    const pages: PageAllocator
    /** The clients' view: live pointers and the sizes they asked for. */
    ghost var live: map<nat, nat>
    ghost var place: map<nat, Place>

    ghost function Footprint(): set<object>
      reads this, heap
    {
      {this, mem, heap, pages, pages.pageDirectory, pages.frameBitmap} + set b | b in heap.blocks
    }

    ghost predicate Valid()
      reads this, mem, heap, heap.blocks`used, pages, pages.pageDirectory, pages.frameBitmap
    {
      && heap.mem == mem && pages.mem == mem
      && heap.Valid() && pages.Valid()
      && Layout(heap.blocks)
      && InPages(heap.blocks, pages.pageDirectory[..])
      && Refines(mem[..], heap.blocks, live, place)
    }

    /** Each superblock fills one present page. */
    static ghost predicate InPages(blocks: seq<MemBlock>, dir: seq<uint32>) {
      forall b :: b in blocks ==>
        && b.totalSize == PAGE_SIZE - HEADER && b.addr == Slot(b.addr) * PAGE_SIZE && b.addr < WORD
        && |dir| == NUM_FRAMES && Present(dir[Slot(b.addr)])
    }

    /** mem_init: an empty heap over the bootstrap directory. */
    constructor (mem: array<uint8>, bootDirectory: array<uint32>)
      requires mem.Length == WORD && bootDirectory.Length == NUM_FRAMES && Bootstrap(bootDirectory[..])
      ensures Valid() && live == map[] && this.mem == mem && heap.blocks == []
      ensures pages.pageDirectory == bootDirectory && pages.virtualAddr == PAGE_SIZE
      ensures fresh(heap) && fresh(pages) && fresh(pages.frameBitmap)
    {
      this.mem := mem;
      heap := new MemHeap(mem);
      pages := new PageAllocator(mem, bootDirectory);
      live := map[];
      place := map[];
    }

    /** One page has been taken from the page allocator: the next one, now mapped, and no other. */
    static ghost predicate Grown(dir: seq<uint32>, cursor: nat, dir': seq<uint32>, page: nat) {
      |dir| == NUM_FRAMES && NextPage(dir, cursor, page) && exists frame: nat :: Maps(dir, dir', page, frame)
    }

    static lemma GrownIs(dir: seq<uint32>, cursor: nat, dir': seq<uint32>, page: nat, d: nat, frame: nat)
      requires |dir| == NUM_FRAMES && PageAllocator.FirstFreeSlot(dir, cursor, d) && page == Ahead(cursor, d)
      requires Maps(dir, dir', page, frame)
      ensures Grown(dir, cursor, dir', page)
    {
      hide Maps, PageAllocator.FirstFreeSlot, Ahead;
    }

    /** Every superblock is one of those before, or lies on a page that was not in use. */
    ghost predicate NewPages(blocks: seq<MemBlock>, dir: seq<uint32>)
      reads heap
    {
      forall b :: b in heap.blocks ==> b in blocks || !IsTaken(dir, b.addr)
    }

    /** memheap_alloc on the kernel heap, in the clients' terms. */
    method TryHeap(sz: uint32) returns (ptr: nat)
      requires Valid()
      modifies this`live, this`place, mem, heap.blocks`used
      ensures Valid()
      ensures ptr == 0 <==> heap.NoRoom(old(mem[..]), |heap.blocks|, sz)
      ensures ptr == 0 || sz == 0 ==> live == old(live) && mem[..] == old(mem[..])
      ensures ptr != 0 && sz > 0 ==> ptr !in old(live) && live == old(live)[ptr := sz]
      ensures ptr != 0 ==> FirstFitIn(old(mem[..]), heap.blocks, sz, ptr)
      ensures SameContents(old(mem[..]), mem[..], old(live))
    {
      hide FirstFitIn, Mul, MemBlock.BlockCount, MemBlock.Reserved, MemBlock.Map, MemBlock.Claimed, Ceil, Run, Full;
      hide Place.Ptr, PageAlloc.Paired, Refines, SameContents, InPages, MemHeap.Chained;
      ghost var bytes, blocks := mem[..], heap.blocks;
      ghost var j, i, id;
      MapsReserve();
      SameContentsRefl(bytes, live);
      ptr, j, i, id := heap.Alloc(sz);
      if ptr != 0 {
        ghost var b := blocks[j];
        FitMeansRoom(b, b.Map(bytes), sz, ptr, i, id);
        ClaimIsFirstFit(bytes, blocks, sz, j, ptr, i, id);
        if sz == 0 {
          ZeroClaim(bytes, b, ptr, i, id);
        } else {
          ClaimStep(bytes, blocks, heap, live, place, j, i, id, sz, ptr);
          live := live[ptr := sz];
          place := place[ptr := Place(b, i)];
        }
      }
    }

    /**
     more_memory: one page from the page allocator becomes the new head superblock. If that page is the one at
     address 0, the heap loses every superblock instead.
     */
    method MoreMemory() returns (page: PageResult, ghost d: nat)
      requires Valid()
      modifies heap, mem, pages, pages.pageDirectory, pages.frameBitmap
      ensures page != NoFrame && heap.Valid()
      ensures page == NoVirtual <==> AllTaken(old(pages.pageDirectory[..]))
      ensures page.Page? ==>
        PageAllocator.FirstFreeSlot(old(pages.pageDirectory[..]), old(pages.virtualAddr), d) &&
        page.addr == Ahead(old(pages.virtualAddr), d)
      ensures page.Page? ==> (page.addr == 0 <==> OnlyFirstSlotLeft(old(pages.pageDirectory[..])))
      ensures page == NoVirtual ==> heap.blocks == old(heap.blocks)
      ensures KeepsSlots(old(pages.pageDirectory[..]), pages.pageDirectory[..]) && NewPages(old(heap.blocks), old(pages.pageDirectory[..]))
      ensures page.Page? && page.addr == 0 ==> heap.blocks == []
      ensures page.Page? && page.addr != 0 ==>
        && Valid() && SameContents(old(mem[..]), mem[..], live)
        && |heap.blocks| > 0 && heap.blocks[1..] == old(heap.blocks) && fresh(heap.blocks[0])
        && heap.blocks[0].addr == page.addr && heap.blocks[0].blockSize == UNIT
        && heap.blocks[0].totalSize == PAGE_SIZE - HEADER
        && heap.blocks[0].Map(mem[..]) == FreshMap(heap.blocks[0].BlockCount(), heap.blocks[0].Reserved())
        && forall b :: b in old(heap.blocks) ==> b.Map(mem[..]) == b.Map(old(mem[..]))
      ensures page.Page? ==> Grown(old(pages.pageDirectory[..]), old(pages.virtualAddr), pages.pageDirectory[..], page.addr)
    {
      hide Mul, MemBlock.BlockCount, MemBlock.Reserved, MemBlock.Map, MemBlock.Ok, MemBlock.Initialised, Ceil, Run;
      hide Place.Ptr, PageAlloc.Paired, Refines, SameContents, Slot, Ahead, Present, FrameOf, Pde, Layout, InPages, OnlyFirstSlotLeft;
      hide PageAlloc.Swept, SameOutside, Fill, MemBlock.Geometry, FreshMap;
      ghost var bytes, blocks, dir := mem[..], heap.blocks, pages.pageDirectory[..];
      MapsReserve();
      ghost var frame;
      page, d, frame := pages.AllocBlock();
      if page.Page? {
        GrownIs(dir, old(pages.virtualAddr), pages.pageDirectory[..], page.addr, d, frame);
        PageIsApart(blocks, dir, page.addr);
        FillIsInside(bytes, page.addr, PAGE_SIZE, 0);
        heap.OutsideKept(bytes, Fill(bytes, page.addr, PAGE_SIZE, 0), page.addr, PAGE_SIZE);
        heap.AddBlock(page.addr, PAGE_SIZE, UNIT);
        if page.addr != 0 {
          GrowStep(bytes, blocks, live, place, heap.blocks[0]);
          InPagesStep(blocks, dir, heap.blocks[0], Pde(frame));
          assert heap.blocks == [heap.blocks[0]] + blocks;
        }
      }
    }

    /**
     A page for another purpose, such as the stack of a thread: it overlaps no superblock, so neither taking it nor
     what is written to it later is noticed by the heap and its clients (WritesOutside).
     */
    method TakePage() returns (page: PageResult, ghost frame: nat)
      requires Valid()
      modifies pages, pages.pageDirectory, pages.frameBitmap, mem
      ensures Valid() && SameContents(old(mem[..]), mem[..], live) && page != NoFrame
      ensures page == NoVirtual <==> AllTaken(old(pages.pageDirectory[..]))
      ensures page == NoVirtual ==> pages.pageDirectory[..] == old(pages.pageDirectory[..]) && mem[..] == old(mem[..])
      ensures page.Page? ==>
        && page.addr == Slot(page.addr) * PAGE_SIZE && !Present(old(pages.pageDirectory[..])[Slot(page.addr)])
        && frame < NUM_FRAMES && pages.pageDirectory[..] == old(pages.pageDirectory[..])[Slot(page.addr) := Pde(frame)]
        && mem[..] == Fill(old(mem[..]), page.addr, PAGE_SIZE, 0)
        && forall b :: b in heap.blocks ==> page.addr + PAGE_SIZE <= b.addr || b.End() <= page.addr
      ensures page.Page? ==> Maps(old(pages.pageDirectory[..]), pages.pageDirectory[..], page.addr, frame)
    {
      hide Mul, MemBlock.BlockCount, MemBlock.Reserved, MemBlock.Map, MemBlock.Ok, Ceil, Run;
      hide Place.Ptr, PageAlloc.Paired, Refines, SameContents, Slot, Ahead, Present, FrameOf, Pde, Layout, InPages, Fill;
      ghost var bytes, blocks, dir := mem[..], heap.blocks, pages.pageDirectory[..];
      MapsReserve();
      SameContentsRefl(bytes, live);
      ghost var d;
      page, d, frame := pages.AllocBlock();
      if page.Page? {
        PageIsApart(blocks, dir, page.addr);
        FillIsInside(bytes, page.addr, PAGE_SIZE, 0);
        heap.OutsideKept(bytes, mem[..], page.addr, PAGE_SIZE);
        OutsideStep(bytes, mem[..], blocks, live, place, page.addr, PAGE_SIZE);
        OtherSlot(blocks, dir, Slot(page.addr), Pde(frame));
      }
    }

    /** Valid(), had memory these contents. */
    ghost predicate ValidWith(bytes: Bytes)
      reads this, heap, heap.blocks`used, pages, pages.pageDirectory, pages.frameBitmap
    {
      && heap.mem == mem && pages.mem == mem && mem.Length == WORD && |bytes| == WORD
      && heap.Chained() && heap.AllApart() && (forall b :: b in heap.blocks ==> b.Ok(bytes, b.used)) && pages.Valid()
      && Layout(heap.blocks)
      && InPages(heap.blocks, pages.pageDirectory[..])
      && Refines(bytes, heap.blocks, live, place)
    }

    lemma ValidAsWith()
      ensures Valid() <==> ValidWith(mem[..])
      ensures Valid() ==> mem.Length == WORD && pages.pageDirectory.Length == NUM_FRAMES && pages.frameBitmap.Length == 32
    {
      hide MemBlock.BlockCount, MemBlock.Ok, PageAlloc.Paired, Refines, Layout, InPages, MemHeap.Chained;
    }

    /** Writes to a page that overlaps no superblock keep the invariant and every live byte. */
    lemma WritesOutside(bytes: Bytes, page: nat)
      requires ValidWith(bytes) && SameOutside(bytes, mem[..], page, PAGE_SIZE)
      requires forall b :: b in heap.blocks ==> page + PAGE_SIZE <= b.addr || b.End() <= page
      ensures Valid() && SameContents(bytes, mem[..], live)
    {
      hide Mul, MemBlock.BlockCount, MemBlock.Reserved, MemBlock.Map, Ceil, Run, Place.Ptr, PageAlloc.Paired;
      hide Refines, SameContents, Layout, InPages, MemHeap.Chained;
      heap.OutsideKept(bytes, mem[..], page, PAGE_SIZE);
      OutsideStep(bytes, mem[..], heap.blocks, live, place, page, PAGE_SIZE);
      ValidAsWith();
    }

    /**
     kmalloc. It panics exactly when the request exceeds a page, or no superblock has room and growing cannot help:
     all slots but the first are taken, or the request exceeds what a fresh page can hold. A page is taken only when
     there is no room; the pointer is the first fit, which on a new page is the first block behind the map.
     */
    method KMalloc(sz: uint32) returns (r: AllocResult)
      requires Valid()
      modifies Footprint()
      ensures fresh(Footprint() - old(Footprint())) && KeepsSlots(old(pages.pageDirectory[..]), pages.pageDirectory[..])
      ensures NewPages(old(heap.blocks), old(pages.pageDirectory[..]))
      ensures r == Panic <==>
        sz > PAGE_SIZE || (old(heap.NoRoom(mem[..], |heap.blocks|, sz)) && !CanGrow(old(pages.pageDirectory[..]), sz))
      ensures r.Allocated? ==> Valid() && SameContents(old(mem[..]), mem[..], old(live))
      ensures r.Allocated? && sz == 0 ==> live == old(live)
      ensures r.Allocated? && sz > 0 ==> r.ptr !in old(live) && live == old(live)[r.ptr := sz]
      ensures r.Allocated? && !old(heap.NoRoom(mem[..], |heap.blocks|, sz)) ==>
        && FirstFitIn(old(mem[..]), old(heap.blocks), sz, r.ptr)
        && heap.blocks == old(heap.blocks) && pages.pageDirectory[..] == old(pages.pageDirectory[..])
      ensures r.Allocated? && old(heap.NoRoom(mem[..], |heap.blocks|, sz)) ==>
        && |heap.blocks| > 0 && heap.blocks[1..] == old(heap.blocks) && r.ptr == heap.blocks[0].addr + 0x4_0014
        && Grown(old(pages.pageDirectory[..]), old(pages.virtualAddr), pages.pageDirectory[..], heap.blocks[0].addr)
    {
      hide FirstFitIn, Grown, MemBlock.Map, Full, PageAlloc.Paired, Refines, SameContents, Layout, InPages, CanGrow;
      if sz > PAGE_SIZE {
        return Panic;
      }
      var data := TryHeap(sz);
      if data == 0 {
        data := GrowAndRetry(sz);
      }
      r := if data == 0 then Panic else Allocated(data);
    }

    /** The second half of kmalloc: more memory, then the same request again; 0 where kmalloc panics. */
    method GrowAndRetry(sz: uint32) returns (data: nat)
      requires Valid() && heap.NoRoom(mem[..], |heap.blocks|, sz)
      modifies Footprint()
      ensures fresh(Footprint() - old(Footprint())) && KeepsSlots(old(pages.pageDirectory[..]), pages.pageDirectory[..])
      ensures NewPages(old(heap.blocks), old(pages.pageDirectory[..]))
      ensures data != 0 <==> CanGrow(old(pages.pageDirectory[..]), sz)
      ensures data != 0 ==> Valid() && SameContents(old(mem[..]), mem[..], old(live))
      ensures data != 0 && sz == 0 ==> live == old(live)
      ensures data != 0 && sz > 0 ==> data !in old(live) && live == old(live)[data := sz]
      ensures data != 0 ==>
        && |heap.blocks| > 0 && heap.blocks[1..] == old(heap.blocks) && data == heap.blocks[0].addr + 0x4_0014
        && Grown(old(pages.pageDirectory[..]), old(pages.virtualAddr), pages.pageDirectory[..], heap.blocks[0].addr)
    {
      hide Mul, MemBlock.BlockCount, MemBlock.Reserved, MemBlock.Map, Ceil, Run, Full, CanGrow;
      hide Place.Ptr, PageAlloc.Paired, Refines, SameContents, Slot, Ahead, Present, Layout, InPages, PageCapacity;
      hide OnlyFirstSlotLeft, FirstFitIn, Grown;
      ghost var blocks, bytes, dir := heap.blocks, mem[..], pages.pageDirectory[..];
      var page;
      ghost var d;
      page, d := MoreMemory();
      if page == NoVirtual {
        NoSlotNoGrowth(dir, sz);
        return 0;
      }
      GrowthIs(dir, sz);
      if page.addr == 0 {
        ghost var j, i, id;
        data, j, i, id := heap.Alloc(sz);
      } else {
        ghost var grown := mem[..];
        GrownRoom(heap, bytes, grown, blocks, sz);
        data := TryHeap(sz);
        if data != 0 {
          FullBehind(heap.blocks, bytes, grown, blocks, sz);
          FitInFront(grown, heap.blocks, sz, data);
        }
        SameContentsTrans(bytes, grown, mem[..], old(live));
      }
    }

    /** A page other than the one at address 0 is left, and has room for the request. */
    static ghost predicate CanGrow(dir: seq<uint32>, sz: nat) {
      |dir| == NUM_FRAMES && (exists i: nat :: 1 <= i < NUM_FRAMES && !Present(dir[i])) && sz <= LARGEST_REQUEST
    }

    /**
     kfree. The allocation is gone for the clients. Its blocks become free exactly if the pointer lies below the last
     page of the address space; a superblock on that page does not recognise its pointers, and the blocks are leaked.
     */
    method KFree(ptr: nat)
      requires Valid() && (ptr == 0 || ptr in live)
      modifies this`live, this`place, mem, heap.blocks`used
      ensures Valid() && live == old(live) - {ptr} && SameContents(old(mem[..]), mem[..], live)
      ensures ptr == 0 ==> mem[..] == old(mem[..])
      ensures ptr != 0 ==>
        var pl := old(place[ptr]);
        if ptr < LAST_PAGE then mem[..] == Fill(old(mem[..]), pl.b.Base() + pl.s, Ceil(old(live[ptr]), UNIT), FREE)
        else mem[..] == old(mem[..])
    {
      hide Mul, MemBlock.BlockCount, MemBlock.Reserved, MemBlock.Map, Ceil, Run, Place.Ptr, PageAlloc.Paired;
      hide SameContents, Layout, InPages, Refines, Fill, MemHeap.Chained;
      ghost var bytes, blocks := mem[..], heap.blocks;
      MapsReserve();
      SameContentsRefl(bytes, live - {ptr});
      if 0 in live {
        LiveFacts(bytes, blocks, live, place, 0);
      }
      if ptr != 0 {
        LiveFacts(bytes, blocks, live, place, ptr);
        ghost var pl, n := place[ptr], Ceil(live[ptr], UNIT);
        ghost var j: nat :| j < |blocks| && blocks[j] == pl.b;
        heap.Free(ptr, j, pl.s, n);
        ReleaseStep(bytes, heap, live, place, j, ptr);
        RecognisedBelow(blocks, pages.pageDirectory[..], pl.b, ptr);
        place := place - {ptr};
      } else {
        assert live - {0} == live;
      }
      live := live - {ptr};
    }

    /** A store by the owner of a live allocation, anywhere in the bytes it asked for, disturbs nothing else. */
    method Store(ghost p: nat, a: nat, v: uint8)
      requires Valid() && p in live && p <= a < p + live[p]
      modifies mem
      ensures Valid() && a < WORD && mem[..] == old(mem[..])[a := v]
      ensures SameContents(old(mem[..]), mem[..], live - {p})
    {
      hide Mul, MemBlock.BlockCount, MemBlock.Reserved, MemBlock.Map, MemBlock.Ok, Ceil, Run, Place.Ptr, PageAlloc.Paired;
      ghost var bytes := mem[..];
      MapsReserve();
      hide Refines, SameContents;
      StoreStep(bytes, heap, live, place, p, a, v);
      mem[a] := v;
    }

    /**
     What every reachable state guarantees its clients: live ranges lie in memory, are pairwise disjoint, and meet
     neither a superblock's header nor its map.
     */
    lemma LiveRangesAreSound()
      requires Valid()
      ensures forall p :: p in live ==> 0 < p && 0 < live[p] && p + live[p] <= WORD
      ensures forall p, q :: p in live && q in live && p != q ==> p + live[p] <= q || q + live[q] <= p
      ensures forall p, b :: p in live && b in heap.blocks ==> p + live[p] <= b.addr || b.Base() + b.BlockCount() <= p
    {
      hide Mul, MemBlock.BlockCount, MemBlock.Reserved, MemBlock.Map, Ceil, Run, Place.Ptr, PageAlloc.Paired, InPages;
      MapsReserve();
      forall p | p in live
        ensures 0 < p && 0 < live[p] && p + live[p] <= p + Mul(Ceil(live[p], UNIT), UNIT) <= WORD
        ensures forall q :: q in live && p != q ==> p + live[p] <= q || q + live[q] <= p
        ensures forall b :: b in heap.blocks ==> p + live[p] <= b.addr || b.Base() + b.BlockCount() <= p
      {
        LiveRangeIsSound(mem[..], heap.blocks, live, place, p);
      }
    }

    /** Every page in use may be written. */
    lemma PagesAreMapped(page: nat)
      requires Valid() && IsTaken(pages.pageDirectory[..], page) && page == Slot(page) * PAGE_SIZE
      ensures MapsPage(pages.pageDirectory[..], page, FrameOf(pages.pageDirectory[..][page / 0x40_0000]))
    {
      hide IsWritablePage, MapsPage, Paired, Swept, MemHeap.Valid, Refines, Layout, InPages, Ahead;
      PageIsMapped(pages.pageDirectory[..], Slot(page));
    }

    /** No two addresses are the same byte of physical memory. */
    lemma NoTwoNames(a: uint32, b: uint32)
      requires Valid() && a != b
      ensures var dir := pages.pageDirectory[..];
        |dir| == 1024 && (Translate(dir, a).Physical? && Translate(dir, b).Physical? ==> Translate(dir, a).at != Translate(dir, b).at)
    {
      var dir := pages.pageDirectory[..];
      if Translate(dir, a).Physical? && Translate(dir, b).Physical? {
        PageAlloc.NoTwoNames(dir, pages.frameBitmap[..], pages.owner, a, b);
      }
    }

    /** Each byte of a live allocation is mapped to a byte of physical memory, and may be written. */
    lemma LiveBytesAreMapped(p: nat, a: nat)
      requires Valid() && p in live && p <= a < p + live[p]
      ensures a < WORD && |pages.pageDirectory[..]| == 1024
      ensures Translate(pages.pageDirectory[..], a).Physical? && Translate(pages.pageDirectory[..], a).writable
    {
      hide Mul, MemBlock.BlockCount, MemBlock.Reserved, MemBlock.Map, MemBlock.Ok, Ceil, Run, Place.Ptr, PageAlloc.Paired;
      hide Translate, Slot, Refines, Layout, IsWritablePage;
      LiveRangesAreSound();
      var b := SuperblockOf(p);
      PageIsMapped(pages.pageDirectory[..], Slot(b.addr));
      assert MapsPage(pages.pageDirectory[..], b.addr, pages.pageDirectory[..][Slot(b.addr)] / 0x40_0000);
    }

    /** The superblock that a live allocation lies in. */
    lemma SuperblockOf(p: nat) returns (b: MemBlock)
      requires Valid() && p in live
      ensures b in heap.blocks && b.addr <= p && p + live[p] <= b.End()
    {
      hide Mul, MemBlock.BlockCount, MemBlock.Reserved, MemBlock.Map, Ceil, Run, PageAlloc.Paired;
      MapsReserve();
      b := place[p].b;
      HasBlocks(mem[..], heap.blocks, place[p], live[p]);
      LiveIsInside(mem[..], heap.blocks, place[p], live[p]);
    }

    lemma MapsReserve()
      requires heap.Valid()
      ensures forall d :: d in heap.blocks && d.BlockCount() > 0 ==> Run(d.Map(heap.mem[..]), 0, d.Reserved())
    {
      hide MemBlock.BlockCount, MemBlock.Reserved;
    }
  }

  lemma LiveRangeIsSound(bytes: Bytes, blocks: seq<MemBlock>, live: map<nat, nat>, place: map<nat, Place>, p: nat)
    requires |bytes| == WORD && Layout(blocks) && Refines(bytes, blocks, live, place) && p in live
    requires forall d :: d in blocks && d.BlockCount() > 0 ==> Run(d.Map(bytes), 0, d.Reserved())
    ensures 0 < p && 0 < live[p] && p + live[p] <= p + Mul(Ceil(live[p], UNIT), UNIT) <= WORD
    ensures forall q :: q in live && p != q ==> p + live[p] <= q || q + live[q] <= p
    ensures forall b :: b in blocks ==> p + live[p] <= b.addr || b.Base() + b.BlockCount() <= p
  {
    hide Mul, MemBlock.BlockCount, MemBlock.Reserved, MemBlock.Map, Ceil, Run, Place.Ptr;
    HasBlocks(bytes, blocks, place[p], live[p]);
    LiveIsInside(bytes, blocks, place[p], live[p]);
    LiveFacts(bytes, blocks, live, place, p);
    forall q | q in live && p != q
      ensures p + live[p] <= q || q + live[q] <= p
    {
      LiveAreDisjoint(bytes, blocks, live, place, p, q);
      CeilBounds(live[p], UNIT);
      CeilBounds(live[q], UNIT);
    }
    forall b | b in blocks
      ensures p + live[p] <= b.addr || b.Base() + b.BlockCount() <= p
    {
      LiveAvoidsMetadata(bytes, blocks, place[p], live[p], b);
    }
  }

  /** kmalloc turns away requests above 4 MB, but no page can ever hold one above 3932128 bytes. */
  lemma LargestRequest(sz: nat)
    ensures Ceil(sz, UNIT) <= PageCapacity() <==> sz <= LARGEST_REQUEST
  {
    assert Div(PAGE_SIZE - HEADER, UNIT) == 262142;
    assert PageCapacity() == 245758;
  }

  /** A page of a slot that was not present overlaps no superblock. */
  lemma PageIsApart(blocks: seq<MemBlock>, dir: seq<uint32>, addr: uint32)
    requires KernelMemory.InPages(blocks, dir) && |dir| == NUM_FRAMES
    requires !Present(dir[Slot(addr)]) && addr == Slot(addr) * PAGE_SIZE
    ensures forall b :: b in blocks ==> addr + PAGE_SIZE <= b.addr || b.End() <= addr
  {
    hide Slot, Present;
  }

  /** Another slot becoming present does not concern the superblocks. */
  lemma OtherSlot(blocks: seq<MemBlock>, dir: seq<uint32>, slot: nat, pde: uint32)
    requires KernelMemory.InPages(blocks, dir) && |dir| == NUM_FRAMES && slot < NUM_FRAMES && Present(pde)
    ensures KernelMemory.InPages(blocks, dir[slot := pde])
  {
    hide Slot, Present;
  }

  lemma InPagesStep(blocks: seq<MemBlock>, dir: seq<uint32>, nb: MemBlock, pde: uint32)
    requires KernelMemory.InPages(blocks, dir) && |dir| == NUM_FRAMES && Present(pde)
    requires nb.totalSize == PAGE_SIZE - HEADER && nb.addr == Slot(nb.addr) * PAGE_SIZE && nb.addr < WORD
    ensures KernelMemory.InPages([nb] + blocks, dir[Slot(nb.addr) := pde])
  {
    hide Slot, Present;
  }

  /** The page cleared, then turned into the superblock nb: nothing the clients see has changed. */
  lemma GrowStep(bytes: Bytes, blocks: seq<MemBlock>, live: map<nat, nat>, place: map<nat, Place>, nb: MemBlock)
    requires |bytes| == WORD && Layout(blocks) && Refines(bytes, blocks, live, place) && nb !in blocks
    requires forall d :: d in blocks && d.BlockCount() > 0 ==> Run(d.Map(bytes), 0, d.Reserved())
    requires 0 < nb.addr && nb.addr + PAGE_SIZE <= WORD && nb.totalSize == PAGE_SIZE - HEADER && nb.blockSize == UNIT
    requires forall b :: b in blocks ==> MemHeap.Apart(nb, b)
    ensures var bytes' := nb.Initialised(Fill(bytes, nb.addr, PAGE_SIZE, 0));
      && Layout([nb] + blocks) && Refines(bytes', [nb] + blocks, live, place) && SameContents(bytes, bytes', live)
      && nb.Map(bytes') == FreshMap(nb.BlockCount(), nb.Reserved())
      && forall b :: b in blocks ==> b.Map(bytes') == b.Map(bytes)
  {
    hide MemBlock.BlockCount, MemBlock.Reserved, MemBlock.Map, Run, Place.Ptr, Ceil, Mul, FreshMap;
    var bytes1 := Fill(bytes, nb.addr, PAGE_SIZE, 0);
    var bytes2 := Fill(bytes1, nb.Base(), nb.BlockCount(), FREE);
    var bytes3 := Fill(bytes2, nb.Base(), nb.Reserved(), 1);
    FillIsInside(bytes, nb.addr, PAGE_SIZE, 0);
    FillIsInside(bytes1, nb.Base(), nb.BlockCount(), FREE);
    FillIsInside(bytes2, nb.Base(), nb.Reserved(), 1);
    OutsideStep(bytes, bytes1, blocks, live, place, nb.addr, PAGE_SIZE);
    OutsideStep(bytes1, bytes2, blocks, live, place, nb.Base(), nb.BlockCount());
    OutsideStep(bytes2, bytes3, blocks, live, place, nb.Base(), nb.Reserved());
    nb.InitialisedMap(bytes1);
    FreshMapHasNoAllocation(nb.BlockCount(), nb.Reserved());
    GrowRefines(bytes3, bytes3, blocks, [nb] + blocks, live, place);
  }

  lemma OutsideStep(bytes: Bytes, bytes': Bytes, blocks: seq<MemBlock>, live: map<nat, nat>, place: map<nat, Place>,
                    at: nat, n: nat)
    requires |bytes| == WORD && SameOutside(bytes, bytes', at, n) && Layout(blocks) && Refines(bytes, blocks, live, place)
    requires forall d :: d in blocks && d.BlockCount() > 0 ==> Run(d.Map(bytes), 0, d.Reserved())
    requires forall d :: d in blocks ==> at + n <= d.addr || d.End() <= at
    ensures Refines(bytes', blocks, live, place) && SameContents(bytes, bytes', live)
    ensures forall d :: d in blocks ==> d.Map(bytes') == d.Map(bytes)
    ensures forall d :: d in blocks && d.BlockCount() > 0 ==> Run(d.Map(bytes'), 0, d.Reserved())
  {
    hide MemBlock.BlockCount, MemBlock.Reserved, MemBlock.Map, Run, Place.Ptr, Ceil, Mul, SameContents;
    OutsideWriteKeeps(bytes, bytes', blocks, live, place, at, n);
    GrowRefines(bytes, bytes', blocks, blocks, live, place);
  }

  lemma NoSlotNoGrowth(dir: seq<uint32>, sz: nat)
    requires AllTaken(dir)
    ensures !KernelMemory.CanGrow(dir, sz)
  {
    hide Present;
  }

  /** Every superblock that fills a page ends at 2^32 exactly if it is on the last page, and so do its pointers. */
  lemma RecognisedBelow(blocks: seq<MemBlock>, dir: seq<uint32>, b: MemBlock, ptr: nat)
    requires KernelMemory.InPages(blocks, dir) && b in blocks && b.addr <= ptr < b.End() <= WORD
    ensures b.End() < WORD <==> ptr < LAST_PAGE
  {
  }

  /** What a superblock on the last page makes of any pointer: nothing. */
  lemma LastPageOwnsNothing(blocks: seq<MemBlock>, dir: seq<uint32>, b: MemBlock, ptr: nat)
    requires KernelMemory.InPages(blocks, dir) && b in blocks && b.addr == LAST_PAGE
    ensures !b.Owns(ptr)
  {
  }

  lemma GrowthIs(dir: seq<uint32>, sz: nat)
    requires |dir| == NUM_FRAMES
    ensures KernelMemory.CanGrow(dir, sz) <==>
            !OnlyFirstSlotLeft(dir) && (if Ceil(sz, UNIT) == 0 then 1 else Ceil(sz, UNIT)) <= PageCapacity()
  {
    LargestRequest(sz);
    LargestRequest(1);
    hide Present, PageCapacity;
  }

  /** After growing by one superblock, the request fails again exactly when a fresh map cannot hold it. */
  lemma GrownRoom(heap: MemHeap, bytes: Bytes, bytes': Bytes, blocks: seq<MemBlock>, sz: nat)
    requires |heap.blocks| > 0 && heap.blocks[1..] == blocks
    requires forall b :: b in blocks ==> b.Map(bytes') == b.Map(bytes)
    requires forall k :: 0 <= k < |blocks| ==> Full(blocks[k].Map(bytes), blocks[k].Wanted(sz))
    requires heap.blocks[0].blockSize == UNIT && heap.blocks[0].totalSize == PAGE_SIZE - HEADER
    requires heap.blocks[0].Map(bytes') == FreshMap(heap.blocks[0].BlockCount(), heap.blocks[0].Reserved())
    ensures heap.NoRoom(bytes', |heap.blocks|, sz) <==> (if Ceil(sz, UNIT) == 0 then 1 else Ceil(sz, UNIT)) > PageCapacity()
  {
    hide MemBlock.Map, Ceil, Full, FreshMap;
    var b := heap.blocks[0];
    FreshMapCapacity(b.BlockCount(), b.Reserved(), b.Wanted(sz));
    assert forall k :: 1 <= k < |heap.blocks| ==> heap.blocks[k] == blocks[k - 1];
  }

  lemma FullBehind(all: seq<MemBlock>, bytes: Bytes, bytes': Bytes, blocks: seq<MemBlock>, sz: nat)
    requires |all| > 0 && all[1..] == blocks
    requires forall b :: b in blocks ==> b.Map(bytes') == b.Map(bytes)
    requires forall k :: 0 <= k < |blocks| ==> Full(blocks[k].Map(bytes), blocks[k].Wanted(sz))
    ensures forall k :: 1 <= k < |all| ==> Full(all[k].Map(bytes'), all[k].Wanted(sz))
  {
    hide MemBlock.Map, Ceil, Full;
    assert forall k :: 1 <= k < |all| ==> all[k] == blocks[k - 1];
  }

  lemma SameContentsTrans(a: Bytes, b: Bytes, c: Bytes, live: map<nat, nat>)
    requires SameContents(a, b, live) && SameContents(b, c, live)
    ensures SameContents(a, c, live)
  {
  }

  lemma SameContentsLess(a: Bytes, b: Bytes, live: map<nat, nat>, p: nat)
    requires SameContents(a, b, live)
    ensures SameContents(a, b, live - {p})
  {
  }

  lemma SameContentsRefl(bytes: Bytes, live: map<nat, nat>)
    requires |bytes| == WORD
    ensures SameContents(bytes, bytes, live)
  {
  }

  /** A zero-size request writes nothing. */
  lemma ZeroClaim(bytes: Bytes, b: MemBlock, ptr: nat, i: nat, id: uint8)
    requires |bytes| == WORD && b.Geometry() && b.blockSize == UNIT && b.Claimed(b.Map(bytes), 0, ptr, i, id)
    ensures Ceil(0, UNIT) == 0 && b.Base() + i <= WORD
    ensures Fill(bytes, b.Base() + i, 0, id) == bytes
  {
    CeilZero(0);
  }

  lemma FitMeansRoom(b: MemBlock, m: Bytes, sz: nat, ptr: nat, i: nat, id: uint8)
    requires b.Claimed(m, sz, ptr, i, id)
    ensures !Full(m, b.Wanted(sz))
  {
  }

  lemma ClaimIsFirstFit(bytes: Bytes, blocks: seq<MemBlock>, sz: nat, j: nat, ptr: nat, i: nat, id: uint8)
    requires j < |blocks| && blocks[j].blockSize == UNIT && blocks[j].Claimed(blocks[j].Map(bytes), sz, ptr, i, id)
    requires forall k :: 0 <= k < j ==> Full(blocks[k].Map(bytes), blocks[k].Wanted(sz))
    ensures FirstFitIn(bytes, blocks, sz, ptr)
  {
    hide Full, MemBlock.Map, FirstFit;
    assert FitsAt(bytes, blocks, sz, j, i);
  }

  /** With a fresh superblock in front of full ones, first fit is the first block behind its map. */
  lemma FitInFront(bytes: Bytes, blocks: seq<MemBlock>, sz: nat, ptr: nat)
    requires |blocks| > 0 && FirstFitIn(bytes, blocks, sz, ptr)
    requires forall k :: 1 <= k < |blocks| ==> Full(blocks[k].Map(bytes), blocks[k].Wanted(sz))
    requires blocks[0].blockSize == UNIT && blocks[0].totalSize == PAGE_SIZE - HEADER
    requires blocks[0].Map(bytes) == FreshMap(blocks[0].BlockCount(), blocks[0].Reserved())
    ensures ptr == blocks[0].addr + 0x4_0014
  {
    var b := blocks[0];
    var j: nat, i: nat :| j < |blocks| && FitsAt(bytes, blocks, sz, j, i) && ptr == blocks[j].addr + 20 + 16 * i;
    assert j == 0 && b.BlockCount() == 262142 && b.Reserved() == 16384;
    hide Ceil, MemBlock.Wanted;
    FitOfFreshMap(b.BlockCount(), b.Reserved(), b.Wanted(sz), i);
  }

  lemma FitOfFreshMap(count: nat, reserved: nat, wanted: nat, i: nat)
    requires reserved <= count && 0 < wanted && FirstFit(FreshMap(count, reserved), wanted, i)
    ensures i == reserved
  {
    assert FreshMap(count, reserved)[i] == FREE;
    assert FreeRun(FreshMap(count, reserved), reserved, wanted);
  }

  lemma CeilZero(sz: nat)
    ensures Ceil(sz, UNIT) > 0 <==> sz > 0
  {
  }

  lemma LiveFacts(bytes: Bytes, blocks: seq<MemBlock>, live: map<nat, nat>, place: map<nat, Place>, p: nat)
    requires |bytes| == WORD && Layout(blocks) && Refines(bytes, blocks, live, place) && p in live
    ensures p in place && place[p].b in blocks && place[p].b.Geometry() && place[p].b.blockSize == UNIT
    ensures 0 < place[p].s && Run(place[p].b.Map(bytes), place[p].s, Ceil(live[p], UNIT))
    ensures place[p].s + Ceil(live[p], UNIT) <= place[p].b.BlockCount()
    ensures p == place[p].b.Base() + Mul(place[p].s, UNIT)
    ensures place[p].b.addr < p < place[p].b.End() <= WORD
  {
    hide MemBlock.BlockCount, Mul, Ceil;
    MapHasBlocks(bytes, blocks, place[p].b);
    RunPtrInside(bytes, blocks, place[p], Ceil(live[p], UNIT));
  }

  /** The release of memheap_free, one level up. */
  lemma ReleaseStep(bytes: Bytes, heap: MemHeap, live: map<nat, nat>, place: map<nat, Place>, j: nat, p: nat)
    requires |bytes| == WORD && heap.AllApart() && j < |heap.blocks|
    requires Layout(heap.blocks) && Refines(bytes, heap.blocks, live, place)
    requires forall d :: d in heap.blocks && d.BlockCount() > 0 ==> Run(d.Map(bytes), 0, d.Reserved())
    requires p in live && place[p].b == heap.blocks[j]
    ensures var pl, n := place[p], Ceil(live[p], UNIT);
      && pl.b.Base() + pl.s + n <= WORD
      && (pl.b.End() == WORD ==> Refines(bytes, heap.blocks, live - {p}, place - {p}))
      && Refines(Fill(bytes, pl.b.Base() + pl.s, n, FREE), heap.blocks, live - {p}, place - {p})
      && SameContents(bytes, Fill(bytes, pl.b.Base() + pl.s, n, FREE), live - {p})
  {
    hide MemBlock.BlockCount, MemBlock.Reserved, MemBlock.Map, Mul, Ceil, Place.Ptr, Run, Refines, SameContents;
    LiveFacts(bytes, heap.blocks, live, place, p);
    var pl, n := place[p], Ceil(live[p], UNIT);
    var b := pl.b;
    MapWriteKeepsContents(bytes, heap.blocks, live, place, b, pl.s, n, FREE);
    SameContentsLess(bytes, Fill(bytes, b.Base() + pl.s, n, FREE), live, p);
    heap.OthersKept(bytes, j, pl.s, n, FREE);
    b.MapWrite(bytes, pl.s, n, FREE);
    ReleaseRemovesOneRun(b.Map(bytes), pl.s, n);
    ReleaseRefines(bytes, Fill(bytes, b.Base() + pl.s, n, FREE), heap.blocks, live, place, p);
    if b.End() == WORD {
      LeakRefines(bytes, heap.blocks, live, place, p);
    }
  }

  /** A store into a live allocation reaches no map and no other allocation. */
  lemma StoreStep(bytes: Bytes, heap: MemHeap, live: map<nat, nat>, place: map<nat, Place>, p: nat, a: nat, v: uint8)
    requires |bytes| == WORD && Layout(heap.blocks) && Refines(bytes, heap.blocks, live, place)
    requires forall d :: d in heap.blocks && d.BlockCount() > 0 ==> Run(d.Map(bytes), 0, d.Reserved())
    requires p in live && p <= a < p + live[p]
    ensures a < WORD && Refines(bytes[a := v], heap.blocks, live, place)
    ensures SameContents(bytes, bytes[a := v], live - {p})
    ensures forall b, u :: b in heap.blocks && b.Ok(bytes, u) ==> b.Ok(bytes[a := v], u)
  {
    hide MemBlock.BlockCount, MemBlock.Reserved, MemBlock.Map, Mul, Ceil, Run, Place.Ptr;
    HasBlocks(bytes, heap.blocks, place[p], live[p]);
    LiveIsInside(bytes, heap.blocks, place[p], live[p]);
    forall b | b in heap.blocks
      ensures b.Map(bytes[a := v]) == b.Map(bytes)
    {
      LiveAvoidsMetadata(bytes, heap.blocks, place[p], live[p], b);
      StoreOutsideMap(bytes, b, a, v);
    }
    forall q, c | q in live - {p} && q <= c < q + live[q] && c < WORD
      ensures bytes[a := v][c] == bytes[c]
    {
      HasBlocks(bytes, heap.blocks, place[q], live[q]);
      LiveIsInside(bytes, heap.blocks, place[q], live[q]);
      LiveAreDisjoint(bytes, heap.blocks, live, place, p, q);
    }
    GrowRefines(bytes, bytes[a := v], heap.blocks, heap.blocks, live, place);
  }

  lemma StoreOutsideMap(bytes: Bytes, b: MemBlock, a: nat, v: uint8)
    requires a < |bytes| && (a < b.Base() || b.Base() + b.BlockCount() <= a)
    ensures b.Map(bytes[a := v]) == b.Map(bytes)
  {
    hide MemBlock.BlockCount;
  }

  /** The claim of memheap_alloc, one level up. */
  lemma ClaimStep(bytes: Bytes, blocks: seq<MemBlock>, heap: MemHeap, live: map<nat, nat>, place: map<nat, Place>,
                  j: nat, i: nat, id: uint8, sz: nat, ptr: nat)
    requires |bytes| == WORD && blocks == heap.blocks && heap.AllApart() && j < |blocks|
    requires Layout(blocks) && Refines(bytes, blocks, live, place) && 0 < sz
    requires blocks[j].Claimed(blocks[j].Map(bytes), sz, ptr, i, id)
    requires forall d :: d in blocks && d.BlockCount() > 0 ==> Run(d.Map(bytes), 0, d.Reserved())
    ensures ptr == Place(blocks[j], i).Ptr() && ptr !in live
    ensures Refines(Fill(bytes, blocks[j].Base() + i, Ceil(sz, UNIT), id), blocks,
                    live[ptr := sz], place[ptr := Place(blocks[j], i)])
    ensures SameContents(bytes, Fill(bytes, blocks[j].Base() + i, Ceil(sz, UNIT), id), live)
  {
    hide Mul, MemBlock.BlockCount, MemBlock.Reserved, MemBlock.Map, Ceil, Run, Refines, Holds;
    var b, n := blocks[j], Ceil(sz, UNIT);
    CeilZero(sz);
    heap.OthersKept(bytes, j, i, n, id);
    b.MapWrite(bytes, i, n, id);
    ClaimAddsOneRun(b.Map(bytes), i, n, id);
    ClaimRefines(bytes, Fill(bytes, b.Base() + i, n, id), blocks, live, place, Place(b, i), sz);
    MapWriteKeepsContents(bytes, blocks, live, place, b, i, n, id);
  }
}