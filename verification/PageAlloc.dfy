/**
 The page allocator: 1024 directory slots of 4 MB, 1024 physical frames in a bit map of 32 words, and a cursor that
 only ever moves forward, modulo 2^32. Pages are never returned.
 */
module PageAlloc {
  import opened Words
  import opened ByteMap
  import opened Memory
  import opened Paging

  const PAGE_SIZE: nat := 0x40_0000
  const NUM_FRAMES: nat := 1024
  const PAGE_ERR: nat := 0xFFFF_FFFF
  /** PAGE_MB | PRESENT | READ_WRITE; the frame address has no bit in common with it. */
  const FLAGS: nat := 0x83
  /** KERNEL_INDEX of the bootstrap code: the slot of the kernel image, followed by the slot of its stack. */
  const KERNEL_INDEX: nat := 768

  // ----- the frame bit map -------------------------------------------------------------------

  function Mask(j: nat): bv32
    requires j < 32
  {
    1 << j
  }

  predicate TestBit(w: bv32, j: nat)
    requires j < 32
  {
    w & Mask(j) != 0
  }

  /** BITMAP_GET. */
  predicate FrameBit(words: seq<bv32>, f: nat)
    requires |words| == 32 && f < NUM_FRAMES
  {
    TestBit(words[f / 32], f % 32)
  }

  lemma SetBit(w: bv32, j: nat, k: nat)
    requires j < 32 && k < 32
    ensures TestBit(w | Mask(j), k) <==> k == j || TestBit(w, k)
  {
    hide Mask, TestBit;
    if j == k {
      BitIsSet(w, j);
    } else if TestBit(w, k) {
      SetBitStays(w, j, k);
    } else {
      ClearBitStays(w, j, k);
    }
  }

  lemma BitIsSet(w: bv32, j: nat)
    requires j < 32
    ensures TestBit(w | Mask(j), j)
  {
  }

  lemma SetBitStays(w: bv32, j: nat, k: nat)
    requires j < 32 && k < 32 && j != k && TestBit(w, k)
    ensures TestBit(w | Mask(j), k)
  {
  }

  lemma ClearBitStays(w: bv32, j: nat, k: nat)
    requires j < 32 && k < 32 && j != k && !TestBit(w, k)
    ensures !TestBit(w | Mask(j), k)
  {
    MasksApart(j, k);
    hide Mask;
    Distribute(w, Mask(j), Mask(k));
  }

  lemma MasksApart(j: nat, k: nat)
    requires j < 32 && k < 32 && j != k
    ensures Mask(j) & Mask(k) == 0
  {
  }

  lemma Distribute(w: bv32, a: bv32, b: bv32)
    ensures (w | a) & b == (w & b) | (a & b)
  {
  }

  /** A word whose bits are all set is 0xFFFFFFFF, so any other word has a clear bit. */
  lemma ClearBitExists(w: bv32)
    requires forall j: nat :: j < 32 ==> TestBit(w, j)
    ensures w == 0xFFFF_FFFF
  {
    Byte0(w);
    Byte1(w);
    Byte2(w);
    Byte3(w);
  }

  lemma Byte0(w: bv32)
    requires forall j: nat :: 0 <= j < 8 ==> TestBit(w, j)
    ensures w & 0xFF == 0xFF
  {
    assert TestBit(w, 0) && TestBit(w, 1) && TestBit(w, 2) && TestBit(w, 3);
    assert TestBit(w, 4) && TestBit(w, 5) && TestBit(w, 6) && TestBit(w, 7);
  }

  lemma Byte1(w: bv32)
    requires forall j: nat :: 8 <= j < 16 ==> TestBit(w, j)
    ensures w & 0xFF00 == 0xFF00
  {
    assert TestBit(w, 8) && TestBit(w, 9) && TestBit(w, 10) && TestBit(w, 11);
    assert TestBit(w, 12) && TestBit(w, 13) && TestBit(w, 14) && TestBit(w, 15);
  }

  lemma Byte2(w: bv32)
    requires forall j: nat :: 16 <= j < 24 ==> TestBit(w, j)
    ensures w & 0xFF0000 == 0xFF0000
  {
    assert TestBit(w, 16) && TestBit(w, 17) && TestBit(w, 18) && TestBit(w, 19);
    assert TestBit(w, 20) && TestBit(w, 21) && TestBit(w, 22) && TestBit(w, 23);
  }

  lemma Byte3(w: bv32)
    requires forall j: nat :: 24 <= j < 32 ==> TestBit(w, j)
    ensures w & 0xFF000000 == 0xFF000000
  {
    assert TestBit(w, 24) && TestBit(w, 25) && TestBit(w, 26) && TestBit(w, 27);
    assert TestBit(w, 28) && TestBit(w, 29) && TestBit(w, 30) && TestBit(w, 31);
  }

  lemma FullWord(j: nat)
    requires j < 32
    ensures TestBit(0xFFFF_FFFF, j)
  {
  }

  method FirstFreeFrame(bitmap: array<bv32>) returns (r: nat)
    requires bitmap.Length == 32
    ensures r != PAGE_ERR ==>
      r < NUM_FRAMES && !FrameBit(bitmap[..], r) && forall f: nat :: f < r ==> FrameBit(bitmap[..], f)
    ensures r == PAGE_ERR ==> forall f: nat :: f < NUM_FRAMES ==> FrameBit(bitmap[..], f)
  {
    hide Mask, TestBit;
    for i := 0 to 32
      invariant forall f: nat :: f < i * 32 ==> FrameBit(bitmap[..], f)
    {
      if bitmap[i] != 0xFFFF_FFFF {
        for j := 0 to 32
          invariant forall k: nat :: k < j ==> TestBit(bitmap[i], k)
        {
          if BitClear(bitmap[i], j) {
            return i * 32 + j;
          }
        }
        ClearBitExists(bitmap[i]);
        assert false;
      }
      forall j: nat | j < 32
        ensures TestBit(bitmap[i], j)
      {
        FullWord(j);
      }
    }
    r := PAGE_ERR;
  }

  function BitClear(w: bv32, j: nat): (c: bool)
    requires j < 32
    ensures c == !TestBit(w, j)
  {
    w & Mask(j) == 0
  }

  /** BITMAP_SET. */
  method SetFrame(bitmap: array<bv32>, f: nat)
    requires bitmap.Length == 32 && f < NUM_FRAMES
    modifies bitmap
    ensures forall g: nat :: g < NUM_FRAMES ==> (FrameBit(bitmap[..], g) <==> g == f || FrameBit(old(bitmap[..]), g))
  {
    hide Mask, TestBit;
    ghost var before := bitmap[..];
    bitmap[f / 32] := bitmap[f / 32] | Mask(f % 32);
    forall g: nat | g < NUM_FRAMES
      ensures FrameBit(bitmap[..], g) <==> g == f || FrameBit(before, g)
    {
      SetBit(before[f / 32], f % 32, g % 32);
    }
  }

  // ----- the page directory ------------------------------------------------------------------

  predicate Present(pde: uint32) {
    pde % 2 == 1
  }

  function Pde(frame: nat): (pde: uint32)
    requires frame < NUM_FRAMES
    ensures Present(pde) && FrameOf(pde) == frame
  {
    frame * PAGE_SIZE + FLAGS
  }

  /** The word that alloc_block writes maps a writable page of 4 MB and says nothing else. */
  lemma PdeMaps(frame: nat)
    requires frame < NUM_FRAMES
    ensures IsWritablePage(Pde(frame)) && HasNoOtherBits(Pde(frame)) && Pde(frame) / 0x40_0000 == frame
  {
    FlagBits(frame, Pde(frame));
  }

  function FrameOf(pde: uint32): (f: nat)
    ensures f < NUM_FRAMES
  {
    pde / PAGE_SIZE
  }

  function Slot(addr: nat): (idx: nat)
    ensures idx < NUM_FRAMES
  {
    (addr / PAGE_SIZE) % NUM_FRAMES
  }

  /** The address d pages past the cursor, modulo 2^32. */
  function Ahead(addr: nat, d: nat): (a: uint32) {
    Wrap(addr + d * PAGE_SIZE)
  }

  lemma AheadNext(addr: nat, d: nat)
    ensures Ahead(addr, d + 1) == Wrap(Ahead(addr, d) + PAGE_SIZE)
  {
    hide Wrap;
    WrapAdd(addr + d * PAGE_SIZE, PAGE_SIZE);
  }

  lemma AheadSlot(addr: uint32, d: nat)
    requires addr % PAGE_SIZE == 0
    ensures Slot(Ahead(addr, d)) == (Slot(addr) + d) % NUM_FRAMES
    ensures Ahead(addr, d) == Slot(Ahead(addr, d)) * PAGE_SIZE
  {
    var t := addr / PAGE_SIZE + d;
    var u, v := t / NUM_FRAMES, t % NUM_FRAMES;
    assert addr + d * PAGE_SIZE == u * WORD + v * PAGE_SIZE;
    hide Wrap, Slot;
    WrapMultiple(v * PAGE_SIZE, u);
    WrapSmall(v * PAGE_SIZE);
    SlotOfPage(v);
    SlotOfPage(addr / PAGE_SIZE);
  }

  lemma SlotOfPage(v: nat)
    requires v < NUM_FRAMES
    ensures Slot(v * PAGE_SIZE) == v
  {
  }

  datatype PageResult = Page(addr: uint32) | NoFrame | NoVirtual

  /** The page at addr is in use. */
  ghost predicate IsTaken(dir: seq<uint32>, addr: nat) {
    |dir| == NUM_FRAMES && Present(dir[Slot(addr)])
  }

  ghost predicate AllTaken(dir: seq<uint32>) {
    |dir| == NUM_FRAMES && forall i: nat :: i < NUM_FRAMES ==> Present(dir[i])
  }

  /** Between the two directories, the page at addr alone has come into use. */
  ghost predicate Takes(dir: seq<uint32>, dir': seq<uint32>, addr: nat) {
    !IsTaken(dir, addr) && IsTaken(dir', addr) && |dir| == |dir'| && dir' == dir[Slot(addr) := dir'[Slot(addr)]]
  }

  /** Whatever is mapped at all is mapped in writable pages of 4 MB. */
  ghost predicate Usable(dir: seq<uint32>) {
    |dir| == NUM_FRAMES && forall i: nat :: i < NUM_FRAMES && Present(dir[i]) ==> IsWritablePage(dir[i])
  }

  /**
   The bootstrap directory at alloc_init: the kernel image on frame 0, its stack on frame 1, both writable, nothing else.
   The processor may have set other bits of the two entries, such as accessed and dirty.
   */
  ghost predicate Bootstrap(dir: seq<uint32>) {
    && |dir| == NUM_FRAMES
    && IsWritablePage(dir[KERNEL_INDEX]) && FrameOf(dir[KERNEL_INDEX]) == 0
    && IsWritablePage(dir[KERNEL_INDEX + 1]) && FrameOf(dir[KERNEL_INDEX + 1]) == 1
    && forall i: nat :: i < NUM_FRAMES && i != KERNEL_INDEX && i != KERNEL_INDEX + 1 ==> !Present(dir[i])
  }

  /**
   The words of the bootstrap code make such a directory: the 4 MB from 0xC0000000 are frame 0, the next 4 MB frame 1, and no
   other address is mapped.
   */
  lemma BootWords(dir: seq<uint32>)
    requires |dir| == 1024 && dir[768] == 0x83 && dir[769] == 0x40_0083
    requires forall i: nat :: i < 1024 && i != 768 && i != 769 ==> dir[i] == 0
    ensures Bootstrap(dir)
    ensures MapsPage(dir, 0xC000_0000, 0) && MapsPage(dir, 0xC040_0000, 1) && HasNoOtherBits(dir[768]) && HasNoOtherBits(dir[769])
    ensures forall a: uint32 {:trigger Translate(dir, a)} :: !(0xC000_0000 <= a < 0xC080_0000) ==> Translate(dir, a) == Fault
  {
    PageIsMapped(dir, 768);
    PageIsMapped(dir, 769);
    hide MapsPage;
    forall a: uint32 | !(0xC000_0000 <= a < 0xC080_0000)
      ensures Translate(dir, a) == Fault
    {
      assert a / 0x40_0000 != 768 && a / 0x40_0000 != 769;
    }
  }

  /** The cursor starts at slot 1 and passes no slot that is not present; back at slot 0 it has passed them all. */
  ghost predicate Swept(dir: seq<uint32>, cursor: nat) {
    |dir| == NUM_FRAMES && forall i: nat :: 1 <= i < (if Slot(cursor) == 0 then NUM_FRAMES else Slot(cursor)) ==> Present(dir[i])
  }

  /** Every slot but the first is present. */
  ghost predicate OnlyFirstSlotLeft(dir: seq<uint32>) {
    |dir| == NUM_FRAMES && forall i: nat :: 1 <= i < NUM_FRAMES ==> Present(dir[i])
  }

  /** A slot behind the cursor, or passed on the way to the first free slot ahead of it, is present. */
  lemma EarlierSlot(dir: seq<uint32>, cursor: uint32, d: nat, i: nat)
    requires cursor % PAGE_SIZE == 0 && Swept(dir, cursor) && PageAllocator.FirstFreeSlot(dir, cursor, d)
    requires 1 <= i < NUM_FRAMES && (Slot(cursor) == 0 || i < Slot(cursor) + d)
    ensures Present(dir[i])
  {
    hide Slot, Ahead, Present;
    if Slot(cursor) != 0 && Slot(cursor) <= i {
      var e: nat := i - Slot(cursor);
      AheadSlot(cursor, e);
      assert Slot(Ahead(cursor, e)) == i;
    }
  }

  /** Taking the next page keeps the slots behind the cursor present, and the page at address 0 comes last. */
  lemma SweptStep(dir: seq<uint32>, cursor: uint32, d: nat, pde: uint32)
    requires cursor % PAGE_SIZE == 0 && Swept(dir, cursor) && PageAllocator.FirstFreeSlot(dir, cursor, d) && Present(pde)
    ensures Swept(dir[Slot(Ahead(cursor, d)) := pde], Wrap(Ahead(cursor, d) + PAGE_SIZE))
    ensures Ahead(cursor, d) == 0 <==> OnlyFirstSlotLeft(dir)
  {
    hide Slot, Ahead, Present, Wrap;
    AheadSlot(cursor, d);
    var a := Ahead(cursor, d);
    NextSlot(a);
    forall i: nat | 1 <= i < NUM_FRAMES && (Slot(cursor) == 0 || i < Slot(cursor) + d)
      ensures Present(dir[i])
    {
      EarlierSlot(dir, cursor, d, i);
    }
  }

  lemma NextSlot(a: uint32)
    requires a % PAGE_SIZE == 0
    ensures Slot(Wrap(a + PAGE_SIZE)) == (Slot(a) + 1) % NUM_FRAMES
  {
    AheadSlot(a, 1);
  }

  /**
   What every allocation keeps: the set bits of the frame map are exactly the frames of the present slots, and no
   two slots share a frame. The map owner, from used frames to their slots, is the inverse of the directory.
   */
  ghost predicate Paired(dir: seq<uint32>, words: seq<bv32>, owner: map<nat, nat>) {
    && |dir| == NUM_FRAMES && |words| == 32
    && (forall f: nat :: f in owner <==> f < NUM_FRAMES && FrameBit(words, f))
    && (forall f :: f in owner ==> owner[f] < NUM_FRAMES && Present(dir[owner[f]]) && FrameOf(dir[owner[f]]) == f)
    && (forall i: nat :: i < NUM_FRAMES && Present(dir[i]) ==> FrameOf(dir[i]) in owner && owner[FrameOf(dir[i])] == i)
  }

  /** In words of the directory and the bit map alone. */
  lemma PairedMeans(dir: seq<uint32>, words: seq<bv32>, owner: map<nat, nat>)
    requires Paired(dir, words, owner)
    ensures forall i: nat, j: nat :: i < j < NUM_FRAMES && Present(dir[i]) && Present(dir[j]) ==>
              FrameOf(dir[i]) != FrameOf(dir[j])
    ensures forall f: nat :: f < NUM_FRAMES ==>
              (FrameBit(words, f) <==> exists i: nat :: i < NUM_FRAMES && Present(dir[i]) && FrameOf(dir[i]) == f)
  {
  }

  /** A free slot leaves a free frame: 1024 frames cannot all be mapped by fewer than 1024 slots. */
  lemma FreeSlotLeavesFreeFrame(dir: seq<uint32>, words: seq<bv32>, owner: map<nat, nat>, idx: nat)
    requires Paired(dir, words, owner) && idx < NUM_FRAMES && !Present(dir[idx])
    ensures exists f: nat :: f < NUM_FRAMES && !FrameBit(words, f)
  {
    if forall f: nat :: f < NUM_FRAMES ==> FrameBit(words, f) {
      NotOnto(owner, NUM_FRAMES, idx);
      assert false;
    }
  }

  /** An injective map into the numbers below n that misses idx is not defined on all of them. */
  lemma NotOnto(m: map<nat, nat>, n: nat, idx: nat)
    requires forall f, g :: f in m && g in m && f != g ==> m[f] != m[g]
    requires idx < n && forall f :: f in m ==> m[f] < n && m[f] != idx
    ensures exists f: nat :: f < n && f !in m
  {
    hide Below;
    Pigeonhole(m, Below(n) - {idx});
    assert |Below(n) - {idx}| == n - 1;
    if Below(n) <= m.Keys {
      Subset(Below(n), m.Keys);
    }
  }

  lemma {:induction false} Subset(a: set<nat>, b: set<nat>)
    requires a <= b
    ensures |a| <= |b|
  {
    if a != {} {
      var x :| x in a;
      Subset(a - {x}, b - {x});
    }
  }

  lemma {:induction false} Pigeonhole(m: map<nat, nat>, slots: set<nat>)
    requires forall f, g :: f in m && g in m && f != g ==> m[f] != m[g]
    requires forall f :: f in m ==> m[f] in slots
    ensures |m.Keys| <= |slots|
    decreases |m.Keys|
  {
    if m.Keys != {} {
      var f :| f in m;
      var m' := m - {f};
      assert m'.Keys == m.Keys - {f};
      Pigeonhole(m', slots - {m[f]});
    }
  }

  ghost function Below(n: nat): (s: set<nat>)
    ensures |s| == n && forall i: nat :: i in s <==> i < n
  {
    if n == 0 then {} else Below(n - 1) + {n - 1}
  }

  /** Mapping a free frame into a free slot keeps the pairing. */
  lemma PairedStep(dir: seq<uint32>, words: seq<bv32>, owner: map<nat, nat>, idx: nat, frame: nat, words': seq<bv32>)
    requires Paired(dir, words, owner) && idx < NUM_FRAMES && !Present(dir[idx])
    requires frame < NUM_FRAMES && !FrameBit(words, frame) && |words'| == 32
    requires forall g: nat :: g < NUM_FRAMES ==> (FrameBit(words', g) <==> g == frame || FrameBit(words, g))
    ensures Paired(dir[idx := Pde(frame)], words', owner[frame := idx])
  {
  }

  /** The pairing does not depend on the other bits of an entry, which the processor sets as pages are used. */
  lemma PairedSurvivesUse(dir: seq<uint32>, dir': seq<uint32>, words: seq<bv32>, owner: map<nat, nat>)
    requires Paired(dir, words, owner) && |dir'| == NUM_FRAMES
    requires forall i: nat :: i < NUM_FRAMES ==> Present(dir'[i]) == Present(dir[i]) && FrameOf(dir'[i]) == FrameOf(dir[i])
    ensures Paired(dir', words, owner)
  {
  }

  lemma UsableStep(dir: seq<uint32>, idx: nat, frame: nat)
    requires Usable(dir) && idx < NUM_FRAMES && frame < NUM_FRAMES
    ensures Usable(dir[idx := Pde(frame)])
  {
    hide Pde, Present, IsWritablePage;
    PdeMaps(frame);
  }

  /** No two addresses are the same place: the 2^32 bytes of memory are bytes of their own, as far as they are mapped. */
  lemma NoTwoNames(dir: seq<uint32>, words: seq<bv32>, owner: map<nat, nat>, a: uint32, b: uint32)
    requires Paired(dir, words, owner) && a != b && Translate(dir, a).Physical? && Translate(dir, b).Physical?
    ensures Translate(dir, a).at != Translate(dir, b).at
  {
    PairedMeans(dir, words, owner);
    DifferentAddresses(dir, a, b);
  }

  /** What alloc_block's write to the directory means to the processor. */
  lemma NewPageIsMapped(dir: seq<uint32>, slot: nat, frame: nat)
    requires |dir| == NUM_FRAMES && slot < NUM_FRAMES && frame < NUM_FRAMES
    ensures MapsPage(dir[slot := Pde(frame)], slot * PAGE_SIZE, frame)
    ensures forall a: uint32 {:trigger Translate(dir[slot := Pde(frame)], a)} :: !(slot * PAGE_SIZE <= a < slot * PAGE_SIZE + PAGE_SIZE) ==>
              Translate(dir[slot := Pde(frame)], a) == Translate(dir, a)
  {
    hide Pde, IsWritablePage, MapsPage, Translate;
    PdeMaps(frame);
    PageIsMapped(dir[slot := Pde(frame)], slot);
    forall a: uint32 | !(slot * PAGE_SIZE <= a < slot * PAGE_SIZE + PAGE_SIZE)
      ensures Translate(dir[slot := Pde(frame)], a) == Translate(dir, a)
    {
      OtherWord(dir, slot, Pde(frame), a);
    }
  }

  lemma MapsStep(dir: seq<uint32>, words: seq<bv32>, owner: map<nat, nat>, slot: nat, frame: nat)
    requires Paired(dir, words, owner) && slot < NUM_FRAMES && !Present(dir[slot]) && frame < NUM_FRAMES && !FrameBit(words, frame)
    ensures Maps(dir, dir[slot := Pde(frame)], slot * PAGE_SIZE, frame)
  {
    hide Pde, MapsPage, HasNoOtherBits, FrameBit;
    PdeMaps(frame);
    NewPageIsMapped(dir, slot, frame);
    forall a: uint32 | slot * PAGE_SIZE <= a < slot * PAGE_SIZE + PAGE_SIZE
      ensures Translate(dir, a) == Fault
    {
      InSlot(a, slot);
    }
    forall a: uint32 | Translate(dir, a).Physical?
      ensures Translate(dir, a).at / 0x40_0000 != frame
    {
      var q := dir[a / 0x40_0000] / 0x40_0000;
      Quotient(q, a % 0x40_0000);
      assert FrameOf(dir[a / 0x40_0000]) == q;
    }
  }

  /** Between the two directories the 4 MB from page on have been mapped to a frame, writably, and nothing else has changed. */
  ghost predicate Maps(dir: seq<uint32>, dir': seq<uint32>, page: nat, frame: nat) {
    && |dir| == |dir'| == 1024 && page < WORD
    && MapsPage(dir', page, frame) && HasNoOtherBits(dir'[page / 0x40_0000])
    && (forall a: uint32 {:trigger Translate(dir, a)} :: page <= a < page + 0x40_0000 ==> Translate(dir, a) == Fault)
    && (forall a: uint32 {:trigger Translate(dir', a)} :: !(page <= a < page + 0x40_0000) ==> Translate(dir', a) == Translate(dir, a))
    && (forall a: uint32 {:trigger Translate(dir, a)} :: Translate(dir, a).Physical? ==> Translate(dir, a).at / 0x40_0000 != frame)
  }

  lemma PairedAtBoot(dir: seq<uint32>, words: seq<bv32>)
    requires Bootstrap(dir) && |words| == 32
    requires forall g: nat :: g < NUM_FRAMES ==> (FrameBit(words, g) <==> g == 0 || g == 1)
    ensures Paired(dir, words, map[0 := KERNEL_INDEX, 1 := KERNEL_INDEX + 1])
  {
  }

  class PageAllocator {
    const mem: array<uint8>
    const pageDirectory: array<uint32>
    const frameBitmap: array<bv32>
    var virtualAddr: uint32
    ghost var owner: map<nat, nat>

    ghost predicate Valid()
      reads this, pageDirectory, frameBitmap
    {
      && mem.Length == WORD
      && pageDirectory.Length == NUM_FRAMES
      && frameBitmap.Length == 32
      && virtualAddr % PAGE_SIZE == 0
      && Paired(pageDirectory[..], frameBitmap[..], owner)
      && Swept(pageDirectory[..], virtualAddr)
      && Usable(pageDirectory[..])
    }

    /** alloc_init, given the bootstrap directory that CR3 points to. */
    constructor (mem: array<uint8>, bootDirectory: array<uint32>)
      requires mem.Length == WORD && bootDirectory.Length == NUM_FRAMES && Bootstrap(bootDirectory[..])
      ensures Valid() && fresh(frameBitmap) && this.mem == mem && pageDirectory == bootDirectory
      ensures virtualAddr == PAGE_SIZE
    {
      virtualAddr := PAGE_SIZE;
      this.mem := mem;
      pageDirectory := bootDirectory;
      frameBitmap := new bv32[32](_ => 0);
      owner := map[0 := KERNEL_INDEX, 1 := KERNEL_INDEX + 1];
      new;
      hide Mask;
      assert forall g: nat :: g < NUM_FRAMES ==> !FrameBit(frameBitmap[..], g);
      SetFrame(frameBitmap, 0);
      SetFrame(frameBitmap, 1);
      PairedAtBoot(pageDirectory[..], frameBitmap[..]);
    }

    /** d pages past the cursor lies the first slot, in cyclic order, that is not present. */
    static ghost predicate FirstFreeSlot(dir: seq<uint32>, cursor: nat, d: nat)
      requires |dir| == NUM_FRAMES
    {
      && d < NUM_FRAMES
      && !Present(dir[Slot(Ahead(cursor, d))])
      && forall e: nat :: e < d ==> Present(dir[Slot(Ahead(cursor, e))])
    }

    static ghost predicate FirstFreeBit(words: seq<bv32>, f: nat)
      requires |words| == 32
    {
      f < NUM_FRAMES && !FrameBit(words, f) && forall g: nat :: g < f ==> FrameBit(words, g)
    }

    /**
     alloc_block. Maps the lowest free frame into the first free slot after the cursor, moves the cursor past it and
     clears the page. Running out of frames before slots cannot happen; NoVirtual means that every slot is present.
     */
    method AllocBlock() returns (r: PageResult, ghost d: nat, ghost frame: nat)
      requires Valid()
      modifies this, pageDirectory, frameBitmap, mem
      ensures Valid()
      ensures r != NoFrame
      ensures r == NoVirtual <==> AllTaken(old(pageDirectory[..]))
      ensures r == NoVirtual ==> pageDirectory[..] == old(pageDirectory[..]) && mem[..] == old(mem[..])
      ensures r.Page? ==> (r.addr == 0 <==> OnlyFirstSlotLeft(old(pageDirectory[..])))
      ensures r.Page? ==>
        && FirstFreeSlot(old(pageDirectory[..]), old(virtualAddr), d)
        && FirstFreeBit(old(frameBitmap[..]), frame)
        && r.addr == Ahead(old(virtualAddr), d) == Slot(r.addr) * PAGE_SIZE
        && pageDirectory[..] == old(pageDirectory[..])[Slot(r.addr) := Pde(frame)]
        && virtualAddr == Wrap(r.addr + PAGE_SIZE)
        && mem[..] == Fill(old(mem[..]), r.addr, PAGE_SIZE, 0)
      ensures r.Page? ==> Maps(old(pageDirectory[..]), pageDirectory[..], r.addr, frame)
    {
      hide Slot, Ahead, Wrap, FrameBit, Present, FrameOf, Paired, Swept, OnlyFirstSlotLeft, Pde, Usable, Maps;
      ghost var start, dir, words := virtualAddr, pageDirectory[..], frameBitmap[..];
      frame := 0;
      var found;
      found, d := SeekSlot();
      if !found {
        r := NoVirtual;
        return;
      }
      AheadSlot(start, d);
      var idx := Slot(virtualAddr);
      FreeSlotLeavesFreeFrame(dir, words, owner, idx);
      var frameIdx := FirstFreeFrame(frameBitmap);
      if frameIdx == PAGE_ERR {
        r := NoFrame;
        return;
      }
      frame := frameIdx;
      SetFrame(frameBitmap, frameIdx);
      pageDirectory[idx] := Pde(frameIdx);
      PairedStep(dir, words, owner, idx, frame, frameBitmap[..]);
      SweptStep(dir, start, d, Pde(frame));
      UsableStep(dir, idx, frame);
      MapsStep(dir, words, owner, idx, frame);
      owner := owner[frame := idx];
      assert pageDirectory[..] == dir[idx := Pde(frame)];

      var retval := virtualAddr;
      PageFits(retval);
      virtualAddr := Wrap(virtualAddr + PAGE_SIZE);
      Memset(mem, retval, 0, PAGE_SIZE);
      r := Page(retval);
    }

    /** The wrapping scan: leaves the cursor on the first slot that is not present, or where it was if there is none. */
    method SeekSlot() returns (found: bool, ghost d: nat)
      requires Valid()
      modifies this`virtualAddr
      ensures found ==> FirstFreeSlot(pageDirectory[..], old(virtualAddr), d) && virtualAddr == Ahead(old(virtualAddr), d)
      ensures !found ==> virtualAddr == old(virtualAddr)
      ensures found <==> exists i: nat :: i < NUM_FRAMES && !Present(pageDirectory[..][i])
    {
      hide Slot, Ahead, Wrap, Present, Paired, Swept;
      ghost var start := virtualAddr;
      AheadStart(start);
      d := 0;
      found := false;
      for i := 0 to 1024
        invariant d == i && virtualAddr == Ahead(start, d)
        invariant forall e: nat :: e < d ==> Present(pageDirectory[Slot(Ahead(start, e))])
      {
        if !Present(pageDirectory[Slot(virtualAddr)]) {
          assert !Present(pageDirectory[..][Slot(virtualAddr)]);
          return true, d;
        }
        AheadNext(start, d);
        virtualAddr := Wrap(virtualAddr + PAGE_SIZE);
        d := d + 1;
      }
      FullCircle(start);
      forall i: nat | i < NUM_FRAMES
        ensures Present(pageDirectory[..][i])
      {
        EverySlotIsAhead(start, i);
      }
    }
  }

  lemma AheadStart(addr: uint32)
    ensures Ahead(addr, 0) == addr
  {
  }

  /** 1024 pages are the whole address space. */
  lemma FullCircle(addr: uint32)
    ensures Ahead(addr, 1024) == addr
  {
  }

  lemma EverySlotIsAhead(addr: uint32, i: nat)
    requires addr % PAGE_SIZE == 0 && i < NUM_FRAMES
    ensures exists e: nat :: e < NUM_FRAMES && Slot(Ahead(addr, e)) == i
  {
    hide Slot, Ahead;
    var e := if Slot(addr) <= i then i - Slot(addr) else i + NUM_FRAMES - Slot(addr);
    AheadSlot(addr, e);
    assert Slot(Ahead(addr, e)) == i;
  }

  lemma PageFits(addr: uint32)
    requires addr == Slot(addr) * PAGE_SIZE
    ensures addr + PAGE_SIZE <= WORD && addr % PAGE_SIZE == 0 && Wrap(addr + PAGE_SIZE) % PAGE_SIZE == 0
  {
  }
}
