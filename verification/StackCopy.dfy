/** Cloning a kernel stack (sched/task.c): every word that points into the parent's stack is redirected to the child's. */
module StackCopy {
  import opened Words
  import opened ByteMap
  import opened Memory
  import opened PageAlloc
  import opened KMem
  import opened TaskList

  predicate IsPage(a: uint32) {
    a % PAGE_SIZE == 0
  }

  /** The aligned word at a; m holds the words of memory in address order. */
  function Load(m: seq<uint32>, a: uint32): uint32
    requires |m| == WORDS
  {
    m[a / 4]
  }

  /** Translation from the stack page ps to the page ns, modulo 2^32. */
  function Shift(ps: uint32, ns: uint32, a: int): uint32 {
    Wrap(ns - ps + a)
  }

  /** What a copied word becomes. The page's own first address is not taken for a pointer into it. */
  function Reloc(ps: uint32, ns: uint32, v: uint32): uint32 {
    if ps < v < ps + PAGE_SIZE then Shift(ps, ns, v) else v
  }

  /** Word k of the clone m' of m: words [lo, hi) are relocated d words further, all others are kept. */
  ghost predicate IsClone(m: seq<uint32>, m': seq<uint32>, ps: uint32, ns: uint32, lo: int, hi: int)
    requires |m| == |m'| == WORDS && 0 <= lo && hi <= WORDS
  {
    var d := ns / 4 - ps / 4;
    forall k {:trigger m'[k]} :: 0 <= k < WORDS ==> (m'[k] == if lo + d <= k < hi + d then Reloc(ps, ns, m[k - d]) else m[k])
  }

  /** Writing one more relocated word; pages do not overlap, so the source word is still the original. */
  lemma CloneStep(m: seq<uint32>, m': seq<uint32>, m'': seq<uint32>, ps: uint32, ns: uint32, lo: int, i: int)
    requires |m| == |m'| == |m''| == WORDS && IsPage(ps) && IsPage(ns) && ps != ns && ps + PAGE_SIZE <= WORD && ns + PAGE_SIZE <= WORD
    requires ps / 4 <= lo <= i < (ps + PAGE_SIZE) / 4 && IsClone(m, m', ps, ns, lo, i)
    ensures m'[i] == m[i] && 0 <= i + ns / 4 - ps / 4 < WORDS
    ensures m'' == m'[i + ns / 4 - ps / 4 := Reloc(ps, ns, m[i])] ==> IsClone(m, m'', ps, ns, lo, i + 1)
  {
    hide Reloc;
    PagesApart(ps, ns, i);
  }

  lemma PagesApart(ps: uint32, ns: uint32, i: int)
    requires IsPage(ps) && IsPage(ns) && ps != ns && ps + PAGE_SIZE <= WORD && ns + PAGE_SIZE <= WORD && ps / 4 <= i < (ps + PAGE_SIZE) / 4
    ensures ns / 4 <= i + ns / 4 - ps / 4 < (ns + PAGE_SIZE) / 4
    ensures (ns + PAGE_SIZE) / 4 <= ps / 4 || (ps + PAGE_SIZE) / 4 <= ns / 4
  {
    var p, n := ps / PAGE_SIZE, ns / PAGE_SIZE;
    assert ps == p * PAGE_SIZE && ns == n * PAGE_SIZE;
  }

  /** Translating an address and moving a word index by the distance of the pages are the same. */
  lemma ShiftedWord(ps: uint32, ns: uint32, a: uint32)
    requires IsPage(ps) && IsPage(ns) && ps <= a < ps + PAGE_SIZE && a % 4 == 0 && ns + PAGE_SIZE <= WORD
    ensures Shift(ps, ns, a) == ns - ps + a && Shift(ps, ns, a) / 4 == a / 4 + ns / 4 - ps / 4 && Shift(ps, ns, a) % 4 == 0
  {
    hide IsPage;
    WrapSmall(ns - ps + a);
    PageFits(ps);
    PageFits(ns);
  }

  lemma PageFits(a: uint32)
    requires IsPage(a)
    ensures a + PAGE_SIZE <= WORD && a % 4 == 0
  {
    var p := a / PAGE_SIZE;
    assert a == 4 * (p * 0x10_0000);
  }

  /** One iteration of the copying loop. */
  lemma CopyWord(m: seq<uint32>, m': seq<uint32>, ps: uint32, ns: uint32, esp: uint32, addr: uint32, offset: uint32)
    requires |m| == |m'| == WORDS && IsPage(ps) && IsPage(ns) && ps != ns && ps + PAGE_SIZE < WORD
    requires ps <= esp <= addr < ps + PAGE_SIZE && addr % 4 == 0 && offset == Shift(ps, ns, addr)
    requires IsClone(m, m', ps, ns, esp / 4, addr / 4)
    ensures offset % 4 == 0 && ns <= offset && offset + 4 <= ns + PAGE_SIZE && Wrap(offset + 4) == Shift(ps, ns, addr + 4)
    ensures IsClone(m, m'[offset / 4 := Reloc(ps, ns, m'[addr / 4])], ps, ns, esp / 4, (addr + 4) / 4)
  {
    hide IsClone, IsPage, Reloc;
    PageFits(ps);
    PageFits(ns);
    ShiftedWord(ps, ns, addr);
    WrapAdd(ns - ps + addr, 4);
    CloneStep(m, m', m'[offset / 4 := Reloc(ps, ns, m'[addr / 4])], ps, ns, esp / 4, addr / 4);
  }

  /** The body of the copying loop: one word, redirected if it points into the parent's stack. */
  method RedirectWord(mem: array<uint8>, parent: Task, newStack: uint32, addr: uint32, offset: uint32)
    requires mem.Length == WORD && addr % 4 == 0 && offset % 4 == 0 && parent.stackStart + PAGE_SIZE < WORD
    modifies mem
    ensures WordsOf(mem[..]) == WordsOf(old(mem[..]))[offset / 4 := Reloc(parent.stackStart, newStack, WordsOf(old(mem[..]))[addr / 4])]
    ensures SameOutside(old(mem[..]), mem[..], offset, 4)
  {
    hide WordsOf, WordAt, HasBytesOf, SameOutside, Reloc;
    var word := LoadWord(mem, addr);
    WordIs(parent.stackStart, newStack, word);
    if word < Wrap(parent.stackStart + PAGE_SIZE) && word > parent.stackStart {
      var diff := word - parent.stackStart;
      StoreWord(mem, offset, Wrap(newStack + diff));
    } else {
      StoreWord(mem, offset, word);
    }
  }

  /** The copying loop of copy_stack. The end of the last page of the address space wraps to zero, and no word is copied. */
  method CopyWords(mem: array<uint8>, parent: Task, newStack: uint32, esp: uint32)
    requires mem.Length == WORD && IsPage(parent.stackStart) && IsPage(newStack) && newStack != parent.stackStart
    requires esp % 4 == 0 && parent.stackStart <= esp < parent.stackStart + PAGE_SIZE
    modifies mem
    ensures parent.stackStart + PAGE_SIZE == WORD ==> mem[..] == old(mem[..])
    ensures parent.stackStart + PAGE_SIZE < WORD ==>
      IsClone(WordsOf(old(mem[..])), WordsOf(mem[..]), parent.stackStart, newStack, esp / 4, (parent.stackStart + PAGE_SIZE) / 4)
    ensures SameOutside(old(mem[..]), mem[..], newStack, PAGE_SIZE)
  {
    hide IsClone, IsPage, Reloc, Shift, Wrap, WordsOf, WordAt, HasBytesOf, SameOutside;
    ghost var bytes, m := mem[..], WordsOf(mem[..]);
    ghost var ps, ns := parent.stackStart, newStack;
    PageFits(ps);
    PageFits(ns);
    EndIs(ps);
    var offset: int := Wrap(newStack + PAGE_SIZE - Wrap(Wrap(parent.stackStart + PAGE_SIZE) - esp));
    OffsetIs(ps, ns, esp);
    var addr: int := esp;
    NothingCloned(m, ps, ns, esp / 4);
    SameOutsideSelf(bytes, ns, PAGE_SIZE);
    while addr < Wrap(parent.stackStart + PAGE_SIZE)
      invariant ps + PAGE_SIZE == WORD ==> mem[..] == bytes && addr == esp
      invariant addr % 4 == 0 && esp <= addr <= ps + PAGE_SIZE
      invariant offset == Shift(ps, ns, addr)
      invariant IsClone(m, WordsOf(mem[..]), ps, ns, esp / 4, addr / 4)
      invariant SameOutside(bytes, mem[..], ns, PAGE_SIZE)
    {
      ghost var before := mem[..];
      CopyWord(m, WordsOf(before), ps, ns, esp, addr, offset);
      RedirectWord(mem, parent, newStack, addr, offset);
      SameOutsideMore(bytes, before, mem[..], ns, offset);
      addr, offset := addr + 4, Wrap(offset + 4);
    }
  }

  lemma SameOutsideSelf(bytes: Bytes, at: nat, n: nat)
    ensures SameOutside(bytes, bytes, at, n)
  {
  }

  lemma SameOutsideMore(bytes: Bytes, bytes': Bytes, bytes'': Bytes, page: nat, a: nat)
    requires SameOutside(bytes, bytes', page, PAGE_SIZE) && SameOutside(bytes', bytes'', a, 4)
    requires page <= a && a + 4 <= page + PAGE_SIZE
    ensures SameOutside(bytes, bytes'', page, PAGE_SIZE)
  {
  }

  /**
   copy_stack: a page from the page allocator becomes the child's stack, a relocated copy of the live part of the
   parent's. It is one exactly if the parent's stack is not on the last page of the address space, or holds but zeros.
   */
  method CopyStack(memory: KernelMemory, child: Task, parent: Task, esp: uint32) returns (page: PageResult)
    requires memory.Valid() && child != parent && IsPage(parent.stackStart)
    requires IsTaken(memory.pages.pageDirectory[..], parent.stackStart)
    requires esp % 4 == 0 && parent.stackStart <= esp < parent.stackStart + PAGE_SIZE
    modifies memory.pages, memory.pages.pageDirectory, memory.pages.frameBitmap, memory.mem, child`stackStart
    ensures memory.Valid() && SameContents(old(memory.mem[..]), memory.mem[..], memory.live) && page != NoFrame
    ensures page == NoVirtual <==> AllTaken(old(memory.pages.pageDirectory[..]))
    ensures page == NoVirtual ==> memory.pages.pageDirectory[..] == old(memory.pages.pageDirectory[..])
    ensures page.Page? ==> child.stackStart == page.addr && IsPage(page.addr)
    ensures page.Page? ==> Takes(old(memory.pages.pageDirectory[..]), memory.pages.pageDirectory[..], page.addr)
    ensures page.Page? ==> forall b :: b in memory.heap.blocks ==> page.addr + PAGE_SIZE <= b.addr || b.End() <= page.addr
    ensures page.Page? ==> SameOutside(old(memory.mem[..]), memory.mem[..], page.addr, PAGE_SIZE)
    ensures page.Page? ==>
      (StackCloned(old(memory.mem[..]), memory.mem[..], parent.stackStart, page.addr, esp) <==>
       parent.stackStart + PAGE_SIZE < WORD || ZeroFrom(old(memory.mem[..]), esp))
  {
    hide IsClone, IsPage, WordsOf, SameOutside, IsTaken, Takes, AllTaken, StackCloned, ZeroFrom, Slot, Present, Pde, Fill;
    hide KernelMemory.Valid, KernelMemory.ValidWith, SameContents;
    ghost var before, live, dir := memory.mem[..], memory.live, memory.pages.pageDirectory[..];
    ghost var frame;
    page, frame := memory.TakePage();
    TakenBy(dir, memory.pages.pageDirectory[..], page, frame, parent.stackStart);
    if page == NoVirtual {
      return;
    }
    ghost var cleared, ps := memory.mem[..], parent.stackStart;
    memory.ValidAsWith();
    CopyWords(memory.mem, parent, page.addr, esp);
    memory.WritesOutside(cleared, page.addr);
    SameContentsTrans(before, cleared, memory.mem[..], live);
    FillIsInside(before, page.addr, PAGE_SIZE, 0);
    SameOutsideTrans(before, cleared, memory.mem[..], page.addr);
    ClonedExactly(before, memory.mem[..], ps, page.addr, esp);
    child.stackStart := page.addr;
  }

  /** Memory after is memory before with the page ns cleared and then made a relocated copy of the stack page ps from esp. */
  ghost predicate StackCloned(before: Bytes, after: Bytes, ps: uint32, ns: uint32, esp: uint32) {
    && |before| == |after| == WORD && ns + PAGE_SIZE <= WORD && ps + PAGE_SIZE <= WORD
    && IsClone(WordsOf(Fill(before, ns, PAGE_SIZE, 0)), WordsOf(after), ps, ns, esp / 4, (ps + PAGE_SIZE) / 4)
  }

  /** All words from esp to the end of memory are zero. */
  ghost predicate ZeroFrom(bytes: Bytes, esp: uint32) {
    |bytes| == WORD && forall k {:trigger WordsOf(bytes)[k]} :: esp / 4 <= k < WORDS ==> WordsOf(bytes)[k] == 0
  }

  /** What TakePage says of the directory. */
  lemma TakenBy(dir: seq<uint32>, dir': seq<uint32>, page: PageResult, frame: nat, ps: uint32)
    requires IsPage(ps) && IsTaken(dir, ps)
    ensures (page.Page? && page.addr == Slot(page.addr) * PAGE_SIZE && frame < NUM_FRAMES && !Present(dir[Slot(page.addr)])
             && dir' == dir[Slot(page.addr) := Pde(frame)]) ==>
            IsPage(page.addr) && page.addr != ps && Takes(dir, dir', page.addr)
  {
    hide Slot;
  }

  /** The copy on the cleared page is right or not, as the end of the parent's page has it. */
  lemma ClonedExactly(before: Bytes, after: Bytes, ps: uint32, ns: uint32, esp: uint32)
    requires |before| == |after| == WORD && IsPage(ps) && IsPage(ns) && ps != ns && ps <= esp < ps + PAGE_SIZE
    requires ps + PAGE_SIZE == WORD ==> after == Fill(before, ns, PAGE_SIZE, 0)
    requires ps + PAGE_SIZE < WORD ==>
      IsClone(WordsOf(Fill(before, ns, PAGE_SIZE, 0)), WordsOf(after), ps, ns, esp / 4, (ps + PAGE_SIZE) / 4)
    ensures StackCloned(before, after, ps, ns, esp) <==> ps + PAGE_SIZE < WORD || ZeroFrom(before, esp)
  {
    hide IsClone, WordsOf, Fill;
    PageFits(ns);
    PageFits(ps);
    if ps + PAGE_SIZE == WORD {
      var m := WordsOf(after);
      hide IsPage;
      ClearedPage(before, ns);
      ClonedIff(m, ps, ns, esp / 4);
      forall k {:trigger m[k]} | esp / 4 <= k < WORDS
        ensures m[k] == WordsOf(before)[k]
      {
        OtherWord(before, ns, k);
      }
      assert forall k {:trigger WordsOf(before)[k]} :: esp / 4 <= k < WORDS ==> m[k] == WordsOf(before)[k];
    }
  }

  /** Clearing a page below keeps the words of the last page. */
  lemma OtherWord(bytes: Bytes, page: nat, k: nat)
    requires |bytes| == WORD && (page + PAGE_SIZE) / 4 <= k < WORDS && page % 4 == 0
    ensures WordsOf(Fill(bytes, page, PAGE_SIZE, 0))[k] == WordsOf(bytes)[k]
  {
  }

  lemma SameOutsideTrans(bytes: Bytes, bytes': Bytes, bytes'': Bytes, page: nat)
    requires SameOutside(bytes, bytes', page, PAGE_SIZE) && SameOutside(bytes', bytes'', page, PAGE_SIZE)
    ensures SameOutside(bytes, bytes'', page, PAGE_SIZE)
  {
  }

  lemma ClearedPage(bytes: Bytes, page: uint32)
    requires |bytes| == WORD && page + PAGE_SIZE <= WORD && page % 4 == 0
    ensures forall k {:trigger WordsOf(Fill(bytes, page, PAGE_SIZE, 0))[k]} :: page / 4 <= k < (page + PAGE_SIZE) / 4 ==>
              WordsOf(Fill(bytes, page, PAGE_SIZE, 0))[k] == 0
  {
  }

  /** With nothing copied, a cleared page is a relocated copy of the last page's words from lo on exactly if they are zero. */
  lemma ClonedIff(m: seq<uint32>, ps: uint32, ns: uint32, lo: int)
    requires |m| == WORDS && IsPage(ps) && ps + PAGE_SIZE == WORD && IsPage(ns) && ns != ps && ps / 4 <= lo <= WORDS
    requires forall k {:trigger m[k]} :: ns / 4 <= k < (ns + PAGE_SIZE) / 4 ==> m[k] == 0
    ensures IsClone(m, m, ps, ns, lo, WORDS) <==> forall k :: lo <= k < WORDS ==> m[k] == 0
  {
    hide Reloc, IsPage;
    PageFits(ps);
    PageFits(ns);
    PagesApart(ps, ns, ps / 4);
    RelocIsZero(ps, ns);
    var d := ns / 4 - ps / 4;
    if IsClone(m, m, ps, ns, lo, WORDS) {
      forall k | lo <= k < WORDS
        ensures m[k] == 0
      {
        assert m[k + d] == Reloc(ps, ns, m[k]);
      }
    }
    if forall k :: lo <= k < WORDS ==> m[k] == 0 {
      ZeroIsClone(m, ps, ns, lo, WORDS);
    }
  }

  /** Zeros on cleared words are already a copy. */
  lemma ZeroIsClone(m: seq<uint32>, ps: uint32, ns: uint32, lo: int, hi: int)
    requires |m| == WORDS && 0 <= lo <= hi <= WORDS && 0 <= lo + ns / 4 - ps / 4 && hi + ns / 4 - ps / 4 <= WORDS
    requires forall k :: lo <= k < hi ==> m[k] == 0
    requires forall k {:trigger m[k]} :: lo + ns / 4 - ps / 4 <= k < hi + ns / 4 - ps / 4 ==> m[k] == 0
    ensures IsClone(m, m, ps, ns, lo, hi)
  {
  }

  lemma RelocIsZero(ps: uint32, ns: uint32)
    requires IsPage(ps) && IsPage(ns)
    ensures forall v :: Reloc(ps, ns, v) == 0 <==> v == 0
  {
    PageFits(ns);
  }

  /** A word is translated like every other address of the page, exactly if it is not the page's own first address. */
  lemma RelocIsFullIff(ps: uint32, ns: uint32, v: uint32)
    requires IsPage(ps) && IsPage(ns) && ps != ns
    ensures Reloc(ps, ns, v) == (if ps <= v < ps + PAGE_SIZE then Shift(ps, ns, v) else v) <==> v != ps
  {
    PageFits(ns);
  }

  lemma EndIs(ps: uint32)
    requires ps + PAGE_SIZE <= WORD
    ensures Wrap(ps + PAGE_SIZE) == if ps + PAGE_SIZE == WORD then 0 else ps + PAGE_SIZE
  {
  }

  lemma OffsetIs(ps: uint32, ns: uint32, esp: uint32)
    ensures Wrap(ns + PAGE_SIZE - Wrap(Wrap(ps + PAGE_SIZE) - esp)) == Shift(ps, ns, esp)
  {
    var x := Wrap(ps + PAGE_SIZE) - esp;
    WrapMultiple(ns + PAGE_SIZE - x, x / WORD);
    WrapMultiple(ns - ps + esp, (ps + PAGE_SIZE) / WORD);
  }

  lemma NothingCloned(m: seq<uint32>, ps: uint32, ns: uint32, lo: int)
    requires |m| == WORDS && ps + PAGE_SIZE <= WORD && ps / 4 <= lo <= (ps + PAGE_SIZE) / 4
    ensures IsClone(m, m, ps, ns, lo, lo)
  {
  }

  lemma WordIs(ps: uint32, ns: uint32, v: uint32)
    requires ps + PAGE_SIZE < WORD
    ensures Reloc(ps, ns, v) == if v < Wrap(ps + PAGE_SIZE) && v > ps then Wrap(ns + (v - ps)) else v
  {
  }

  /** Whatever the parent's stack holds at a is at a's translate in the child's, redirected. */
  lemma LoadIsRelocated(m: seq<uint32>, m': seq<uint32>, ps: uint32, ns: uint32, esp: uint32, a: uint32)
    requires |m| == |m'| == WORDS && IsPage(ps) && IsPage(ns) && ps != ns
    requires esp % 4 == 0 && ps <= esp <= a < ps + PAGE_SIZE && a % 4 == 0
    requires IsClone(m, m', ps, ns, esp / 4, (ps + PAGE_SIZE) / 4)
    ensures Load(m', Shift(ps, ns, a)) == Reloc(ps, ns, Load(m, a))
  {
    hide Reloc;
    PageFits(ps);
    PageFits(ns);
    ShiftedWord(ps, ns, a);
    assert m'[Shift(ps, ns, a) / 4] == Reloc(ps, ns, m[a / 4]);
  }

  /** Everything but the copied part of the child's page reads as before; in particular the parent's own stack. */
  lemma OthersKept(m: seq<uint32>, m': seq<uint32>, ps: uint32, ns: uint32, esp: uint32, a: uint32)
    requires |m| == |m'| == WORDS && IsPage(ps) && IsPage(ns) && ps != ns
    requires esp % 4 == 0 && ps <= esp < ps + PAGE_SIZE && a % 4 == 0
    requires IsClone(m, m', ps, ns, esp / 4, (ps + PAGE_SIZE) / 4)
    ensures !(Shift(ps, ns, esp) <= a < ns + PAGE_SIZE) ==> Load(m', a) == Load(m, a)
    ensures ps <= a < ps + PAGE_SIZE ==> Load(m', a) == Load(m, a)
  {
    hide Reloc;
    PageFits(ps);
    PageFits(ns);
    ShiftedWord(ps, ns, esp);
    if ps <= a < ps + PAGE_SIZE {
      PagesApart(ps, ns, a / 4);
    }
    assert m'[a / 4] == m[a / 4] || (Shift(ps, ns, esp) <= a < ns + PAGE_SIZE && !(ps <= a < ps + PAGE_SIZE));
  }

  /** The address reached from frame pointer a by following k saved frame pointers. */
  function Frame(m: seq<uint32>, a: uint32, k: nat): uint32
    requires |m| == WORDS
    decreases k
  {
    if k == 0 then a else Frame(m, Load(m, a), k - 1)
  }

  /** The first k frames from a lie in the live part [esp, end) of the stack page ps. */
  predicate FramesIn(m: seq<uint32>, ps: uint32, esp: uint32, a: uint32, k: nat)
    requires |m| == WORDS
    decreases k
  {
    k == 0 || (a % 4 == 0 && esp <= a < ps + PAGE_SIZE && a != ps && FramesIn(m, ps, esp, Load(m, a), k - 1))
  }

  /** The child's frame-pointer chain is the parent's, translated, for as long as the parent's stays on its stack. */
  lemma {:induction false} ChainIsRelocated(m: seq<uint32>, m': seq<uint32>, ps: uint32, ns: uint32, esp: uint32, a: uint32, k: nat)
    requires |m| == |m'| == WORDS && IsPage(ps) && IsPage(ns) && ps != ns
    requires esp % 4 == 0 && ps <= esp < ps + PAGE_SIZE && FramesIn(m, ps, esp, a, k)
    requires IsClone(m, m', ps, ns, esp / 4, (ps + PAGE_SIZE) / 4)
    ensures Frame(m', Reloc(ps, ns, a), k) == Reloc(ps, ns, Frame(m, a, k))
    decreases k
  {
    hide IsClone, IsPage;
    if k > 0 {
      LoadIsRelocated(m, m', ps, ns, esp, a);
      ChainIsRelocated(m, m', ps, ns, esp, Load(m, a), k - 1);
    }
  }

  /** The same from the registers thread_create gives the child, which are translated without the range test. */
  lemma ChildChainIsRelocated(m: seq<uint32>, m': seq<uint32>, ps: uint32, ns: uint32, esp: uint32, ebp: uint32, k: nat)
    requires |m| == |m'| == WORDS && IsPage(ps) && IsPage(ns) && ps != ns
    requires esp % 4 == 0 && ps <= esp < ps + PAGE_SIZE && FramesIn(m, ps, esp, ebp, k) && ps < ebp < ps + PAGE_SIZE
    requires IsClone(m, m', ps, ns, esp / 4, (ps + PAGE_SIZE) / 4)
    ensures Frame(m', Shift(ps, ns, ebp), k) == Reloc(ps, ns, Frame(m, ebp, k))
  {
    hide IsClone, IsPage, FramesIn, Frame, Shift;
    ChainIsRelocated(m, m', ps, ns, esp, ebp, k);
  }

  /** Clearing another page does not change the frames on this one. */
  lemma {:induction false} FramesKept(m: seq<uint32>, m': seq<uint32>, ps: uint32, esp: uint32, a: uint32, k: nat)
    requires |m| == |m'| == WORDS && IsPage(ps) && ps <= esp && FramesIn(m, ps, esp, a, k)
    requires forall i {:trigger m'[i]} :: ps / 4 <= i < (ps + PAGE_SIZE) / 4 ==> m'[i] == m[i]
    ensures FramesIn(m', ps, esp, a, k) && Frame(m', a, k) == Frame(m, a, k)
    decreases k
  {
    hide IsPage;
    if k > 0 {
      PageFits(ps);
      assert m'[a / 4] == m[a / 4];
      FramesKept(m, m', ps, esp, Load(m, a), k - 1);
    }
  }

  /** The word at a in the parent's stack is at the same depth in the child's, redirected if it points into the parent's page. */
  lemma ClonedWord(before: Bytes, after: Bytes, ps: uint32, ns: uint32, esp: uint32, a: uint32)
    requires IsPage(ps) && IsPage(ns) && ps != ns && StackCloned(before, after, ps, ns, esp)
    requires esp % 4 == 0 && ps <= esp <= a < ps + PAGE_SIZE && a % 4 == 0
    ensures a + 4 <= WORD && ns + (a - ps) + 4 <= WORD
    ensures var v := WordAt(before, a);
      WordAt(after, ns + (a - ps)) == if ps < v < ps + PAGE_SIZE then ns + (v - ps) else v
  {
    hide IsPage, WordAt, Reloc, IsClone, Shift, Fill;
    var m, m' := WordsOf(Fill(before, ns, PAGE_SIZE, 0)), WordsOf(after);
    PageFits(ps);
    PageFits(ns);
    LoadIsRelocated(m, m', ps, ns, esp, a);
    ShiftedWord(ps, ns, a);
    PageKept(before, ps, ns);
    var b := ns + (a - ps);
    assert 4 * (a / 4) == a && 4 * (b / 4) == b;
    assert m[a / 4] == WordsOf(before)[a / 4];
    RelocIs(ps, ns, WordAt(before, a));
  }

  lemma RelocIs(ps: uint32, ns: uint32, v: uint32)
    requires IsPage(ns)
    ensures Reloc(ps, ns, v) == if ps < v < ps + PAGE_SIZE then ns + (v - ps) else v
  {
    PageFits(ns);
  }

  /** Clearing the page ns keeps the words of the page ps. */
  lemma PageKept(bytes: Bytes, ps: uint32, ns: uint32)
    requires |bytes| == WORD && IsPage(ps) && IsPage(ns) && ps != ns && ps + PAGE_SIZE <= WORD && ns + PAGE_SIZE <= WORD
    ensures forall i {:trigger WordsOf(Fill(bytes, ns, PAGE_SIZE, 0))[i]} :: ps / 4 <= i < (ps + PAGE_SIZE) / 4 ==>
              WordsOf(Fill(bytes, ns, PAGE_SIZE, 0))[i] == WordsOf(bytes)[i]
  {
    PagesApart(ps, ns, ps / 4);
    PageFits(ps);
    PageFits(ns);
    hide IsPage;
    forall i {:trigger WordsOf(bytes)[i]} | ps / 4 <= i < (ps + PAGE_SIZE) / 4
      ensures WordsOf(Fill(bytes, ns, PAGE_SIZE, 0))[i] == WordsOf(bytes)[i]
    {
      assert 4 * i + 4 <= ns || ns + PAGE_SIZE <= 4 * i;
    }
  }

  /**
   In a cloned stack, following k saved frame pointers from the address at the depth of ebp leads to the depth of the
   parent's k-th frame, or to the same word where the parent's chain leaves its page.
   */
  lemma ChildFrames(before: Bytes, after: Bytes, ps: uint32, ns: uint32, esp: uint32, ebp: uint32, k: nat)
    requires IsPage(ps) && IsPage(ns) && ps != ns && StackCloned(before, after, ps, ns, esp)
    requires esp % 4 == 0 && ps <= esp < ps + PAGE_SIZE && ps < ebp < ps + PAGE_SIZE && FramesIn(WordsOf(before), ps, esp, ebp, k)
    ensures ns + (ebp - ps) < WORD
    ensures var f := Frame(WordsOf(before), ebp, k);
      Frame(WordsOf(after), ns + (ebp - ps), k) == if ps < f < ps + PAGE_SIZE then ns + (f - ps) else f
  {
    hide IsPage, FramesIn, Frame, IsClone, WordsOf, Reloc;
    PageFits(ps);
    PageFits(ns);
    var m := WordsOf(Fill(before, ns, PAGE_SIZE, 0));
    PageKept(before, ps, ns);
    FramesKept(WordsOf(before), m, ps, esp, ebp, k);
    ChildChainIsRelocated(m, WordsOf(after), ps, ns, esp, ebp, k);
    RelocIs(ps, ns, ebp);
    RelocIs(ps, ns, Frame(m, ebp, k));
    ShiftIs(ps, ns, ebp);
  }

  /** For every k, k frames from ebp' in the child's stack is the translate of k frames from ebp in the parent's. */
  ghost predicate FramesFollow(before: Bytes, after: Bytes, ps: uint32, ns: uint32, esp: uint32, ebp: uint32, ebp': uint32) {
    && |before| == |after| == WORD
    && forall k: nat {:trigger Frame(WordsOf(after), ebp', k)} :: FramesIn(WordsOf(before), ps, esp, ebp, k) ==>
         var f := Frame(WordsOf(before), ebp, k);
         Frame(WordsOf(after), ebp', k) == if ps < f < ps + PAGE_SIZE then ns + (f - ps) else f
  }

  lemma ChildFollows(before: Bytes, after: Bytes, ps: uint32, ns: uint32, esp: uint32, ebp: uint32)
    requires IsPage(ps) && IsPage(ns) && ps != ns && StackCloned(before, after, ps, ns, esp)
    requires esp % 4 == 0 && ps <= esp < ps + PAGE_SIZE && ps < ebp < ps + PAGE_SIZE
    ensures ns + (ebp - ps) < WORD && FramesFollow(before, after, ps, ns, esp, ebp, ns + (ebp - ps))
  {
    PageFits(ns);
    hide IsPage, FramesIn, Frame, IsClone, WordsOf, StackCloned;
    assert |before| == |after| == WORD by {
      ClonedLength(before, after, ps, ns, esp);
    }
    forall k: nat | FramesIn(WordsOf(before), ps, esp, ebp, k)
      ensures var f := Frame(WordsOf(before), ebp, k);
        Frame(WordsOf(after), ns + (ebp - ps), k) == if ps < f < ps + PAGE_SIZE then ns + (f - ps) else f
    {
      ChildFrames(before, after, ps, ns, esp, ebp, k);
    }
  }

  lemma ClonedLength(before: Bytes, after: Bytes, ps: uint32, ns: uint32, esp: uint32)
    requires StackCloned(before, after, ps, ns, esp)
    ensures |before| == |after| == WORD
  {
  }

  lemma ShiftIs(ps: uint32, ns: uint32, a: uint32)
    requires IsPage(ns) && ps <= a < ps + PAGE_SIZE
    ensures Shift(ps, ns, a) == ns + (a - ps)
  {
    PageFits(ns);
  }

  /** Translation moves a pointer into the stack to the same depth of the other stack, and two of them never meet. */
  lemma RelocIsInjective(ps: uint32, ns: uint32, a: uint32, b: uint32)
    requires IsPage(ps) && IsPage(ns) && ps < a < ps + PAGE_SIZE && ps < b < ps + PAGE_SIZE
    ensures Reloc(ps, ns, a) == ns + (a - ps) && (Reloc(ps, ns, a) == Reloc(ps, ns, b) ==> a == b)
  {
    PageFits(ns);
  }
}
