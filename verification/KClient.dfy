/**
 Runs of the kernel heap. A client asks, in whatever order and depending on whatever it was answered before, for memory,
 reads and writes the bytes it holds, and gives memory back; the run goes on until the kernel panics.
 */
module KClient {
  import opened Words
  import opened Memory
  import opened PageAlloc
  import opened KMem

  datatype Request = Malloc(sz: uint32) | Release(p: nat) | Write(a: nat, v: uint8) | Read(a: nat)

  datatype Answer = Pointer(p: nat) | Done | Byte(v: uint8) | Halt

  datatype Event = Event(req: Request, ans: Answer)

  /** What a client knows from its own history: the sizes of the ranges it holds, and the bytes it wrote into them. */
  datatype Knowledge = Knowledge(live: map<nat, nat>, data: map<nat, uint8>)

  predicate InRange(live: map<nat, nat>, p: nat, a: nat) {
    p in live && p <= a < p + live[p]
  }

  /** What was written outside the range at p. */
  ghost function Forget(c: Knowledge, p: nat): (d: map<nat, uint8>)
    ensures forall a :: a in d <==> a in c.data && !InRange(c.live, p, a)
    ensures forall a :: a in d ==> d[a] == c.data[a]
  {
    map a | a in c.data && !InRange(c.live, p, a) :: c.data[a]
  }

  ghost function Learn(c: Knowledge, e: Event): Knowledge {
    match e.req
    case Malloc(sz) => if e.ans.Pointer? && sz > 0 then c.(live := c.live[e.ans.p := sz]) else c
    case Release(p) => Knowledge(c.live - {p}, Forget(c, p))
    case Write(a, v) => c.(data := c.data[a := v])
    case Read(_) => c
  }

  ghost function After(h: seq<Event>): Knowledge {
    if h == [] then Knowledge(map[], map[]) else Learn(After(h[..|h| - 1]), h[|h| - 1])
  }

  /** A client frees only what it holds, and touches only bytes it holds. */
  ghost predicate Allowed(c: Knowledge, r: Request) {
    match r
    case Malloc(_) => true
    case Release(p) => p == 0 || p in c.live
    case Write(a, _) => exists p :: InRange(c.live, p, a)
    case Read(a) => exists p :: InRange(c.live, p, a)
  }

  /** Pairwise disjoint ranges of memory. */
  ghost predicate Disjoint(live: map<nat, nat>) {
    && (forall p :: p in live ==> 0 < p && 0 < live[p] && p + live[p] <= WORD)
    && forall p, q :: p in live && q in live && p != q ==> p + live[p] <= q || q + live[q] <= p
  }

  /** The answer to the last event of a history is right, given what the client knew before it. */
  ghost predicate Right(c: Knowledge, e: Event) {
    match e.req
    case Malloc(sz) =>
      e.ans == Halt || (e.ans.Pointer? && (sz > 0 ==> e.ans.p !in c.live && Disjoint(c.live[e.ans.p := sz])))
    case Release(_) => e.ans == Done
    case Write(_, _) => e.ans == Done
    case Read(a) => e.ans.Byte? && (a in c.data ==> e.ans.v == c.data[a])
  }

  /** Every request is the client's next one, and every answer is right. */
  ghost predicate Served(client: seq<Event> -> Request, h: seq<Event>) {
    forall i {:trigger h[i]} :: 0 <= i < |h| ==> h[i].req == client(h[..i]) && Right(After(h[..i]), h[i])
  }

  /** Memory holds what the client knows. */
  ghost predicate Agrees(c: Knowledge, bytes: Bytes) {
    && |bytes| == WORD && Disjoint(c.live)
    && (forall a :: a in c.data ==> exists p :: InRange(c.live, p, a))
    && forall a :: a in c.data ==> a < WORD && bytes[a] == c.data[a]
  }

  lemma ServedMore(client: seq<Event> -> Request, h: seq<Event>, e: Event)
    requires Served(client, h) && e.req == client(h) && Right(After(h), e)
    ensures Served(client, h + [e]) && After(h + [e]) == Learn(After(h), e)
  {
    hide Learn, Right;
    var g := h + [e];
    assert g[..|h|] == h;
    forall i {:trigger g[i]} | 0 <= i < |g|
      ensures g[i].req == client(g[..i]) && Right(After(g[..i]), g[i])
    {
      if i < |h| {
        assert g[..i] == h[..i] && g[i] == h[i];
      }
    }
  }

  lemma AgreesAfterMalloc(c: Knowledge, bytes: Bytes, bytes': Bytes, live: map<nat, nat>)
    requires Agrees(c, bytes) && SameContents(bytes, bytes', c.live) && Disjoint(live)
    requires forall p :: p in c.live ==> p in live && live[p] == c.live[p]
    ensures Agrees(c.(live := live), bytes')
  {
    forall a | a in c.data
      ensures bytes'[a] == c.data[a] && exists p :: InRange(live, p, a)
    {
      var p :| InRange(c.live, p, a);
      assert InRange(live, p, a);
    }
  }

  lemma AgreesAfterRelease(c: Knowledge, bytes: Bytes, bytes': Bytes, p: nat)
    requires Agrees(c, bytes) && SameContents(bytes, bytes', c.live - {p})
    ensures Agrees(Learn(c, Event(Release(p), Done)), bytes')
  {
    hide Forget;
    var live, d := c.live - {p}, Forget(c, p);
    forall a | a in d
      ensures a < WORD && bytes'[a] == d[a] && exists q :: InRange(live, q, a)
    {
      var q := HeldElsewhere(c, p, a);
      ByteKept(bytes, bytes', live, q, a);
    }
  }

  lemma HeldElsewhere(c: Knowledge, p: nat, a: nat) returns (q: nat)
    requires (exists q :: InRange(c.live, q, a)) && !InRange(c.live, p, a)
    ensures InRange(c.live - {p}, q, a)
  {
    q :| InRange(c.live, q, a);
  }

  lemma ByteKept(bytes: Bytes, bytes': Bytes, live: map<nat, nat>, q: nat, a: nat)
    requires SameContents(bytes, bytes', live) && InRange(live, q, a) && a < WORD
    ensures bytes'[a] == bytes[a]
  {
  }

  lemma AgreesAfterWrite(c: Knowledge, bytes: Bytes, a: nat, v: uint8)
    requires Agrees(c, bytes) && a < WORD && exists p :: InRange(c.live, p, a)
    ensures Agrees(c.(data := c.data[a := v]), bytes[a := v])
  {
  }

  /** The kernel panics only on a request that no page can hold, or when all pages but the one at address 0 are taken. */
  ghost predicate Exhausted(sz: nat, dir: seq<uint32>) {
    sz > LARGEST_REQUEST || OnlyFirstSlotLeft(dir)
  }

  lemma ExhaustedIs(dir: seq<uint32>, dir': seq<uint32>, sz: nat)
    requires KeepsSlots(dir, dir')
    ensures sz > PAGE_SIZE || (|dir| == NUM_FRAMES && !KernelMemory.CanGrow(dir, sz)) ==> Exhausted(sz, dir')
  {
    hide Present;
  }

  lemma WholeDirectory(k: KernelMemory)
    requires k.Valid()
    ensures |k.pages.pageDirectory[..]| == NUM_FRAMES
  {
  }

  /** One request. */
  method Answering(k: KernelMemory, r: Request, ghost c: Knowledge) returns (ans: Answer)
    requires k.Valid() && k.live == c.live && Agrees(c, k.mem[..]) && Allowed(c, r)
    modifies k.Footprint()
    ensures fresh(k.Footprint() - old(k.Footprint())) && Right(c, Event(r, ans))
    ensures ans == Halt ==> r.Malloc? && Exhausted(r.sz, k.pages.pageDirectory[..])
    ensures ans != Halt ==> k.Valid() && k.live == Learn(c, Event(r, ans)).live && Agrees(Learn(c, Event(r, ans)), k.mem[..])
  {
    hide KernelMemory.Valid, KernelMemory.CanGrow, SameContents, KeepsSlots, Exhausted;
    ghost var bytes, dir := k.mem[..], k.pages.pageDirectory[..];
    match r
    case Malloc(sz) =>
      WholeDirectory(k);
      var res := k.KMalloc(sz);
      ans := if res.Panic? then Halt else Pointer(res.ptr);
      ExhaustedIs(dir, k.pages.pageDirectory[..], sz);
      if res != Panic {
        LiveIsDisjoint(k);
        AgreesAfterMalloc(c, bytes, k.mem[..], k.live);
      }
    case Release(p) =>
      k.KFree(p);
      AgreesAfterRelease(c, bytes, k.mem[..], p);
      ans := Done;
    case Write(a, v) =>
      ghost var p :| InRange(c.live, p, a);
      k.Store(p, a, v);
      AgreesAfterWrite(c, bytes, a, v);
      ans := Done;
    case Read(a) =>
      ghost var p :| InRange(c.live, p, a);
      ans := Byte(k.mem[a]);
  }

  lemma LiveIsDisjoint(k: KernelMemory)
    requires k.Valid()
    ensures Disjoint(k.live)
  {
    hide KernelMemory.Valid;
    k.LiveRangesAreSound();
  }

  /**
   Any client and any number of requests: each allocation is disjoint from all that are live, and each read of a byte
   returns what was last written to it, until the range is freed or the kernel panics.
   */
  method Serve(k: KernelMemory, client: seq<Event> -> Request, n: nat) returns (h: seq<Event>)
    requires k.Valid() && k.live == map[]
    requires forall g :: Served(client, g) ==> Allowed(After(g), client(g))
    modifies k.Footprint()
    ensures Served(client, h) && |h| <= n && (|h| < n ==> h != [] && h[|h| - 1].ans == Halt)
    ensures forall i :: 0 <= i < |h| - 1 ==> h[i].ans != Halt
    ensures h != [] && h[|h| - 1].ans == Halt ==> h[|h| - 1].req.Malloc? && Exhausted(h[|h| - 1].req.sz, k.pages.pageDirectory[..])
    ensures h == [] || h[|h| - 1].ans != Halt ==> k.Valid() && k.live == After(h).live && Agrees(After(h), k.mem[..])
  {
    hide KernelMemory.Valid, Agrees, Allowed, Served, Learn, Right, Exhausted;
    h := [];
    NothingKnown(client, k);
    while |h| < n
      invariant |h| <= n && Served(client, h) && fresh(k.Footprint() - old(k.Footprint()))
      invariant forall i :: 0 <= i < |h| ==> h[i].ans != Halt
      invariant k.Valid() && k.live == After(h).live && Agrees(After(h), k.mem[..])
    {
      var r := client(h);
      var ans := Answering(k, r, After(h));
      ServedMore(client, h, Event(r, ans));
      h := h + [Event(r, ans)];
      if ans == Halt {
        return;
      }
    }
  }

  lemma NothingKnown(client: seq<Event> -> Request, k: KernelMemory)
    requires k.Valid()
    ensures Served(client, []) && After([]) == Knowledge(map[], map[]) && Agrees(After([]), k.mem[..])
  {
  }

  /** The same from the boot of the machine. */
  method Boot(mem: array<uint8>, bootDirectory: array<uint32>, client: seq<Event> -> Request, n: nat) returns (h: seq<Event>)
    requires mem.Length == WORD && bootDirectory.Length == NUM_FRAMES && Bootstrap(bootDirectory[..])
    requires forall g :: Served(client, g) ==> Allowed(After(g), client(g))
    modifies mem, bootDirectory
    ensures Served(client, h) && |h| <= n
    ensures |h| < n ==> h != [] && h[|h| - 1].ans == Halt && h[|h| - 1].req.Malloc? && Exhausted(h[|h| - 1].req.sz, bootDirectory[..])
  {
    hide KernelMemory.Valid, Exhausted;
    var k := new KernelMemory(mem, bootDirectory);
    h := Serve(k, client, n);
  }

  /** Where the first allocation after boot lies: on the second page, behind the header and the map of its superblock. */
  method FirstPointer(mem: array<uint8>, bootDirectory: array<uint32>, sz: uint32) returns (r: AllocResult)
    requires mem.Length == WORD && bootDirectory.Length == NUM_FRAMES && Bootstrap(bootDirectory[..]) && sz <= LARGEST_REQUEST
    modifies mem, bootDirectory
    ensures r == Allocated(0x44_0014)
  {
    hide KernelMemory.Valid, SameContents, KeepsSlots, OnlyFirstSlotLeft, Maps, FirstFitIn;
    ghost var dir := bootDirectory[..];
    var k := new KernelMemory(mem, bootDirectory);
    SecondPageIsFree(dir);
    assert k.heap.NoRoom(k.mem[..], |k.heap.blocks|, sz);
    r := k.KMalloc(sz);
  }

  lemma SecondPageIsFree(dir: seq<uint32>)
    requires Bootstrap(dir)
    ensures !Present(dir[1]) && forall page: nat :: NextPage(dir, PAGE_SIZE, page) ==> page == PAGE_SIZE
    ensures forall sz: nat :: sz <= LARGEST_REQUEST ==> KernelMemory.CanGrow(dir, sz)
  {
    hide Present;
    assert Ahead(PAGE_SIZE, 0) == PAGE_SIZE && Slot(PAGE_SIZE) == 1;
    forall page: nat | NextPage(dir, PAGE_SIZE, page)
      ensures page == PAGE_SIZE
    {
      var d: nat :| PageAllocator.FirstFreeSlot(dir, PAGE_SIZE, d) && page == Ahead(PAGE_SIZE, d);
      assert d == 0;
    }
  }
}
