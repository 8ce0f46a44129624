/** The scheduler of sched/task.c over the kernel's task list. */
module Scheduler {
  import opened Words
  import opened Memory
  import opened Paging
  import opened PageAlloc
  import opened Heap
  import opened KMem
  import opened Links
  import opened TaskList
  import opened StackCopy
  import opened SchedRun

  /** The list from position c on, then from the front. */
  ghost function Ring(s: seq<Task>, c: nat): seq<Task>
    requires c < |s|
  {
    s[c..] + s[..c]
  }

  lemma RingIsOk(s: seq<Task>, c: nat)
    requires c < |s| && NoDup(s)
    ensures NoDup(Ring(s, c)) && (forall t :: t in s ==> t in Ring(s, c)) && forall t :: t in Ring(s, c) ==> t in s
  {
    assert s == s[..c] + s[c..];
  }

  lemma OneTask(t: Task)
    ensures Inserted([], 0, t) == [t]
  {
  }

  lemma RingTurns(s: seq<Task>, c: nat)
    requires c < |s|
    ensures Ring(s, if c + 1 < |s| then c + 1 else 0) == Ring(s, c)[1..] + [Ring(s, c)[0]]
  {
    if c + 1 < |s| {
      assert s[c..] == [s[c]] + s[c + 1..] && s[..c + 1] == s[..c] + [s[c]];
    } else {
      assert s[c..] == [s[c]] && s == s[..c] + [s[c]];
    }
  }

  lemma RingGrows(s: seq<Task>, t: seq<Task>, c: nat, child: Task)
    requires c < |s| && t == Inserted(s, c + 1, child)
    ensures Ring(t, c) == [Ring(s, c)[0], child] + Ring(s, c)[1..] && c < |t| && t[c] == s[c] && child in t
    ensures (forall x :: x in s ==> x in t) && forall x :: x in t ==> x == child || x in s
  {
    InsertedHas(s, c + 1, child);
    assert t[c..] == [s[c], child] + s[c + 1..] && t[..c] == s[..c] && s[c..] == [s[c]] + s[c + 1..];
  }

  ghost function Saved(s: seq<Task>): (m: map<Task, Context>)
    reads s`eip, s`esp, s`ebp
    ensures forall t :: t in s ==> t in m && m[t] == Context(t.eip, t.esp, t.ebp)
  {
    map t | t in s :: Context(t.eip, t.esp, t.ebp)
  }

  /** An address of the page ps has moved to the same depth of the page ns, and any other by the same distance modulo 2^32. */
  ghost predicate SameDepth(a: uint32, a': uint32, ps: uint32, ns: uint32) {
    && (ps <= a < ps + 0x40_0000 ==> a' - ns == a - ps)
    && (a' - ns - (a - ps)) % 0x1_0000_0000 == 0
  }

  lemma DepthIsKept(ps: uint32, ns: uint32, a: uint32)
    requires IsPage(ps) && IsPage(ns)
    ensures SameDepth(a, Wrap(ns - ps + a), ps, ns)
  {
    StackCopy.PageFits(ps);
    StackCopy.PageFits(ns);
    var b := ns - ps + a;
    assert b == b / WORD * WORD + Wrap(b);
  }

  ghost predicate Off(stack: nat, b: MemBlock) {
    stack + PAGE_SIZE <= b.addr || b.End() <= stack
  }

  lemma OffNewPage(blocks: seq<MemBlock>, dir: seq<uint32>, dir': seq<uint32>, stack: uint32, b: MemBlock)
    requires KernelMemory.InPages(blocks, dir') && b in blocks
    requires IsPage(stack) && IsTaken(dir, stack) && !IsTaken(dir, b.addr)
    ensures Off(stack, b)
  {
    AheadSlot(stack, 0);
    AheadStart(stack);
    hide Slot, Present;
  }

  lemma StillTaken(dir: seq<uint32>, dir': seq<uint32>, a: nat)
    requires IsTaken(dir, a) && KeepsSlots(dir, dir')
    ensures IsTaken(dir', a)
  {
    hide Slot, Present;
  }

  lemma OnPages(memory: KernelMemory)
    requires memory.Valid()
    ensures KernelMemory.InPages(memory.heap.blocks, memory.pages.pageDirectory[..])
  {
  }

  class Kernel {
    const tasks: TaskQueue
    const memory: KernelMemory
    var current: Task
    /** Where current stands in the list. */
    ghost var pos: nat

    ghost predicate Valid()
      reads this, tasks, tasks.elems
    {
      && tasks.Valid() && pos < |tasks.elems| && tasks.elems[pos] == current && current.ticks <= SLICE
      && (forall t :: t in tasks.elems && t != current ==> t.ticks == 0)
      && (forall t :: t in tasks.elems ==> IsPage(t.stackStart))
    }

    /** Every stack is a page of its own, in use. */
    ghost predicate StacksTaken()
      reads tasks, tasks.elems`stackStart, memory.pages.pageDirectory
    {
      && (forall t :: t in tasks.elems ==> IsTaken(memory.pages.pageDirectory[..], t.stackStart))
      && (forall t, u :: t in tasks.elems && u in tasks.elems && t != u ==> t.stackStart != u.stackStart)
    }

    /** No stack overlaps a superblock of the heap. */
    ghost predicate StacksOffHeap()
      reads tasks, tasks.elems`stackStart, memory.heap
    {
      forall t, b :: t in tasks.elems && b in memory.heap.blocks ==> Off(t.stackStart, b)
    }

    /** When the heap grows, it takes pages that are nobody's stack. */
    lemma HeapGrowthKeepsStacks(blocks: seq<MemBlock>, dir: seq<uint32>)
      requires Valid() && memory.Valid() && memory.NewPages(blocks, dir) && KeepsSlots(dir, memory.pages.pageDirectory[..])
      requires forall t :: t in tasks.elems ==> IsTaken(dir, t.stackStart)
      requires forall t, u :: t in tasks.elems && u in tasks.elems && t != u ==> t.stackStart != u.stackStart
      requires forall t, b :: t in tasks.elems && b in blocks ==> Off(t.stackStart, b)
      ensures StacksTaken() && StacksOffHeap()
    {
      StacksArePages();
      OnPages(memory);
      hide Valid, KernelMemory.Valid, KernelMemory.InPages, IsPage, IsTaken, KeepsSlots, Off;
      forall t | t in tasks.elems
        ensures IsTaken(memory.pages.pageDirectory[..], t.stackStart)
        ensures forall b :: b in memory.heap.blocks ==> Off(t.stackStart, b)
      {
        StillTaken(dir, memory.pages.pageDirectory[..], t.stackStart);
        forall b | b in memory.heap.blocks && b !in blocks
          ensures Off(t.stackStart, b)
        {
          OffNewPage(memory.heap.blocks, dir, memory.pages.pageDirectory[..], t.stackStart, b);
        }
      }
    }

    lemma StacksArePages()
      requires Valid()
      ensures forall t :: t in tasks.elems ==> IsPage(t.stackStart)
    {
    }

    ghost function State(): (s: Sched)
      requires Valid()
      reads this, tasks, tasks.elems
      ensures s.ring != []
    {
      Sched(Ring(tasks.elems, pos), current.ticks, Saved(tasks.elems))
    }

    lemma CurrentIs()
      requires Valid()
      ensures current in tasks.elems && IsPage(current.stackStart) && State().ring[0] == current
      ensures State() == Sched(Ring(tasks.elems, pos), current.ticks, Saved(tasks.elems)) && pos < |tasks.elems|
    {
    }

    /** The invariant of the state machine holds; in particular no task ever has more than a full slice. */
    lemma StateIsOk()
      requires Valid()
      ensures Ok(State()) && forall t :: t in State().ring <==> t in tasks.elems
    {
      hide Ring, NoDup, Chained, IsPage;
      CurrentIs();
      RingIsOk(tasks.elems, pos);
    }

    /** task_init, once the boot stack has moved to the page at stack. */
    constructor (memory: KernelMemory, stack: uint32)
      requires IsPage(stack) && IsTaken(memory.pages.pageDirectory[..], stack)
      ensures Valid() && StacksTaken() && fresh(tasks) && fresh(current) && current.stackStart == stack && this.memory == memory
      ensures State().ring == [current] && State().ticks == 50
    {
      this.memory := memory;
      tasks := new TaskQueue();
      var task := new Task();
      current := task;
      pos := 0;
      new;
      task.stackStart := stack;
      task.ticks := SLICE;
      tasks.InsertHead(task);
      OneTask(task);
    }

    /** The first step of yield: the task gives up its slice. An interrupt may come before the one yield raises. */
    method EndSlice()
      requires Valid()
      modifies current`ticks
      ensures Valid() && State() == Step(old(State()), GiveUp)
    {
      hide Ring, Listed, IsPage;
      current.ticks := 0;
    }

    /** An interrupt within the slice. */
    method Tick()
      requires Valid() && current.ticks > 0
      modifies current`ticks
      ensures Valid() && State() == old(State()).(ticks := old(current.ticks) - 1) && State().ticks == current.ticks
    {
      hide Ring, Listed, IsPage;
      current.ticks := current.ticks - 1;
    }

    /** The next task in the list, or the first, gets the processor for a slice. */
    method SelectNext()
      requires Valid() && current.ticks == 0
      modifies `current, `pos, tasks.elems`ticks
      ensures Valid() && current.ticks == 50 && current in tasks.elems && Saved(tasks.elems) == old(Saved(tasks.elems))
      ensures Ring(tasks.elems, pos) == Ring(tasks.elems, old(pos))[1..] + [Ring(tasks.elems, old(pos))[0]]
    {
      hide Ring, NoDup, Listed, IsPage;
      tasks.At(pos);
      tasks.Front();
      RingTurns(tasks.elems, pos);
      if current.next != null {
        current := current.next;
        pos := pos + 1;
      } else {
        current := tasks.first;
        pos := 0;
      }
      current.ticks := SLICE;
    }

    /** The progress of curr is preserved for its next turn. */
    method Preserve(curr: Task, here: Context)
      requires Valid() && curr in tasks.elems
      modifies curr`eip, curr`esp, curr`ebp
      ensures Valid() && Saved(tasks.elems) == old(Saved(tasks.elems))[curr := here]
      ensures curr.eip == here.eip && curr.esp == here.esp && curr.ebp == here.ebp
    {
      hide Listed, IsPage;
      curr.eip := here.eip;
      curr.esp := here.esp;
      curr.ebp := here.ebp;
    }

    /** task_switch, entered with registers `here`; returns the registers execution goes on with. */
    method TaskSwitch(here: Context) returns (resume: Context)
      requires Valid()
      modifies `current, `pos, tasks.elems`ticks, tasks.elems`eip, tasks.elems`esp, tasks.elems`ebp
      ensures Valid() && State() == Step(old(State()), Interrupt(here))
      ensures resume == if old(current.ticks) > 0 then here else State().saved[current]
    {
      hide Valid, State, Ring;
      CurrentIs();
      if current.ticks > 0 {
        Tick();
        return here;
      }
      var curr := current;
      SelectNext();
      Preserve(curr, here);
      CurrentIs();
      resume := Context(current.eip, current.esp, current.ebp);
    }

    /** yield, when no other interrupt comes first. */
    method Yield(here: Context) returns (resume: Context)
      requires Valid()
      modifies `current, `pos, tasks.elems`ticks, tasks.elems`eip, tasks.elems`esp, tasks.elems`ebp
      ensures Valid() && State() == Step(Step(old(State()), GiveUp), Interrupt(here))
      ensures resume == State().saved[current]
    {
      EndSlice();
      resume := TaskSwitch(here);
    }

    /** The new task goes into the list right behind the running one. */
    method Enqueue(child: Task)
      requires Valid() && child !in tasks.elems && child.ticks == 0 && IsPage(child.stackStart)
      requires StacksTaken() && OwnStack(child.stackStart)
      modifies tasks, tasks.elems`next, tasks.elems`prev, child`next, child`prev
      ensures StacksTaken()
      ensures Valid() && child in tasks.elems && forall t :: t in tasks.elems ==> t == child || t in old(tasks.elems)
      ensures Ring(tasks.elems, pos) == [old(Ring(tasks.elems, pos))[0], child] + old(Ring(tasks.elems, pos))[1..]
      ensures Saved(tasks.elems) == old(Saved(tasks.elems))[child := Context(child.eip, child.esp, child.ebp)]
    {
      hide Ring, NoDup, Listed, IsPage, IsTaken, Inserted;
      ghost var s := tasks.elems;
      tasks.InsertAfter(current, child, pos);
      RingGrows(s, tasks.elems, pos, child);
    }

    /** Queueing the child and setting up its registers: the parent's, moved to the child's stack. */
    method Admit(child: Task, here: Context)
      requires Valid() && child !in tasks.elems && child.ticks == 0 && IsPage(child.stackStart)
      requires StacksTaken() && OwnStack(child.stackStart)
      modifies tasks, tasks.elems`next, tasks.elems`prev, child`next, child`prev, child`eip, child`esp, child`ebp
      ensures Valid() && StacksTaken() && forall t :: t in tasks.elems ==> t == child || t in old(tasks.elems)
      ensures State() == Step(old(State()), Create(child, Start(child, here)))
      ensures child in State().saved && State().saved[child] == Context(child.eip, child.esp, child.ebp)
      ensures child.eip == here.eip
      ensures SameDepth(here.esp, child.esp, current.stackStart, child.stackStart)
      ensures SameDepth(here.ebp, child.ebp, current.stackStart, child.stackStart)
    {
      hide Valid, StacksTaken, OwnStack, Ring, IsPage, IsTaken, Wrap, SameDepth, NoDup, Listed;
      CurrentIs();
      Enqueue(child);
      var offset := Wrap(child.stackStart - current.stackStart);
      WrapAdd(child.stackStart - current.stackStart, here.esp);
      WrapAdd(child.stackStart - current.stackStart, here.ebp);
      Preserve(child, Context(here.eip, Wrap(offset + here.esp), Wrap(offset + here.ebp)));
      DepthIsKept(current.stackStart, child.stackStart, here.esp);
      DepthIsKept(current.stackStart, child.stackStart, here.ebp);
    }

    /** copy_stack, for the running task as the parent. */
    method CloneStack(child: Task, copyEsp: uint32) returns (page: PageResult)
      requires Valid() && memory.Valid() && StacksTaken() && child !in tasks.elems
      requires copyEsp % 4 == 0 && current.stackStart <= copyEsp < current.stackStart + PAGE_SIZE
      modifies memory.pages, memory.pages.pageDirectory, memory.pages.frameBitmap, memory.mem, child`stackStart
      ensures Valid() && memory.Valid() && StacksTaken() && State() == old(State()) && page != NoFrame
      ensures page == NoVirtual <==> AllTaken(old(memory.pages.pageDirectory[..]))
      ensures page.Page? ==> child.stackStart == page.addr && IsPage(page.addr) && OwnStack(page.addr)
      ensures page.Page? ==> forall b :: b in memory.heap.blocks ==> Off(page.addr, b)
      ensures page.Page? ==> SameContents(old(memory.mem[..]), memory.mem[..], memory.live)
      ensures page.Page? ==> SameOutside(old(memory.mem[..]), memory.mem[..], page.addr, PAGE_SIZE)
      ensures page.Page? ==>
        (StackCloned(old(memory.mem[..]), memory.mem[..], current.stackStart, page.addr, copyEsp) <==>
         current.stackStart + PAGE_SIZE < WORD || ZeroFrom(old(memory.mem[..]), copyEsp))
    {
      hide Valid, State, KernelMemory.Valid, SameContents, SameOutside, StackCloned, ZeroFrom, IsPage, IsTaken, AllTaken, Takes;
      CurrentIs();
      ghost var dir := memory.pages.pageDirectory[..];
      page := CopyStack(memory, child, current, copyEsp);
      if page.Page? {
        TakesMore(dir, memory.pages.pageDirectory[..], page.addr);
      }
    }

    /** A page in use that is no task's stack. */
    ghost predicate OwnStack(addr: nat)
      reads tasks, tasks.elems`stackStart, memory.pages.pageDirectory
    {
      IsTaken(memory.pages.pageDirectory[..], addr) && forall t :: t in tasks.elems ==> t.stackStart != addr
    }

    /**
     The parent's way through thread_create, with registers `here`; NULL where alloc_block panics. The child's stack is a
     page that no task and no superblock has, and whether it is a relocated copy is told by CopyStack's condition.
     */
    method ThreadCreate(copyEsp: uint32, here: Context) returns (child: Task?)
      requires Valid() && memory.Valid() && StacksTaken()
      requires copyEsp % 4 == 0 && current.stackStart <= copyEsp < current.stackStart + PAGE_SIZE
      modifies memory.pages, memory.pages.pageDirectory, memory.pages.frameBitmap, memory.mem
      modifies tasks, tasks.elems`next, tasks.elems`prev
      ensures child == null <==> AllTaken(old(memory.pages.pageDirectory[..]))
      ensures child != null ==> Valid() && memory.Valid() && StacksTaken() && current == old(current)
      ensures child != null ==> fresh(child) && forall t :: t in tasks.elems ==> t == child || t in old(tasks.elems)
      ensures child != null ==> child.id == Wrap(current.id + 1) && State() == Step(old(State()), Create(child, Start(child, here)))
      ensures child != null ==> child in State().saved && State().saved[child] == Context(child.eip, child.esp, child.ebp)
      ensures child != null ==> child.eip == here.eip
      ensures child != null ==> SameDepth(here.esp, child.esp, current.stackStart, child.stackStart)
      ensures child != null ==> SameDepth(here.ebp, child.ebp, current.stackStart, child.stackStart)
      ensures child != null && current.stackStart < here.ebp < current.stackStart + PAGE_SIZE ==>
        StackCloned(old(memory.mem[..]), memory.mem[..], current.stackStart, child.stackStart, copyEsp) ==>
          FramesFollow(old(memory.mem[..]), memory.mem[..], current.stackStart, child.stackStart, copyEsp, here.ebp, child.ebp)
      ensures child != null ==> SameContents(old(memory.mem[..]), memory.mem[..], memory.live)
      ensures child != null ==> SameOutside(old(memory.mem[..]), memory.mem[..], child.stackStart, PAGE_SIZE)
      ensures child != null ==> forall b :: b in memory.heap.blocks ==> Off(child.stackStart, b)
      ensures child != null ==>
        (StackCloned(old(memory.mem[..]), memory.mem[..], current.stackStart, child.stackStart, copyEsp) <==>
         current.stackStart + PAGE_SIZE < WORD || ZeroFrom(old(memory.mem[..]), copyEsp))
    {
      hide Valid, State, StacksTaken, OwnStack, KernelMemory.Valid, SameContents, SameOutside, StackCloned, ZeroFrom, IsPage;
      hide IsTaken, AllTaken, Shift, Wrap, Step, FramesFollow;
      ghost var before := memory.mem[..];
      var task := new Task();
      task.id := Wrap(current.id + 1);
      var page := CloneStack(task, copyEsp);
      if page == NoVirtual {
        return null;
      }
      IsOther(task.stackStart);
      Admit(task, here);
      Follows(before, task, copyEsp, here.ebp);
      child := task;
    }

    lemma IsOther(addr: nat)
      requires Valid() && OwnStack(addr)
      ensures addr != current.stackStart
    {
      hide IsTaken;
      CurrentIs();
    }

    /** When the child's stack is a copy, its frame pointer starts the copy of the parent's chain of frames. */
    lemma Follows(before: Bytes, child: Task, copyEsp: uint32, ebp: uint32)
      requires Valid() && IsPage(child.stackStart) && child.stackStart != current.stackStart
      requires copyEsp % 4 == 0 && current.stackStart <= copyEsp < current.stackStart + PAGE_SIZE
      requires SameDepth(ebp, child.ebp, current.stackStart, child.stackStart)
      ensures current.stackStart < ebp < current.stackStart + PAGE_SIZE ==>
        StackCloned(before, memory.mem[..], current.stackStart, child.stackStart, copyEsp) ==>
          FramesFollow(before, memory.mem[..], current.stackStart, child.stackStart, copyEsp, ebp, child.ebp)
    {
      hide Valid, IsPage, StackCloned, FramesFollow;
      CurrentIs();
      if current.stackStart < ebp < current.stackStart + PAGE_SIZE {
        if StackCloned(before, memory.mem[..], current.stackStart, child.stackStart, copyEsp) {
          ChildFollows(before, memory.mem[..], current.stackStart, child.stackStart, copyEsp, ebp);
        }
      }
    }

    /** Every stack lies in mapped pages that may be written. */
    lemma StacksAreMapped(t: Task)
      requires Valid() && memory.Valid() && StacksTaken() && t in tasks.elems
      ensures MapsPage(memory.pages.pageDirectory[..], t.stackStart, FrameOf(memory.pages.pageDirectory[..][t.stackStart / 0x40_0000]))
    {
      hide KernelMemory.Valid;
      StacksArePages();
      AheadStart(t.stackStart);
      AheadSlot(t.stackStart, 0);
      memory.PagesAreMapped(t.stackStart);
    }

    /** The registers thread_create gives the child. */
    ghost function Start(child: Task, here: Context): Context
      reads this, current`stackStart, child`stackStart
    {
      var ps, ns := current.stackStart, child.stackStart;
      Context(here.eip, Shift(ps, ns, here.esp), Shift(ps, ns, here.ebp))
    }
  }

  /** The page just taken is none of those taken before, and those are taken still. */
  lemma TakesMore(dir: seq<uint32>, dir': seq<uint32>, addr: nat)
    requires Takes(dir, dir', addr)
    ensures forall a: nat :: IsTaken(dir, a) ==> IsTaken(dir', a) && a != addr
    ensures IsTaken(dir', addr)
  {
    hide Slot, Present;
  }
}
