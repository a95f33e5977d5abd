/** The kernel heap of src/memory/kmalloc.c: segments that tile an address range. */
module KernelHeap {
  import opened Common
  import opened SegmentList

  const GRANULE := 16 // HEAP_GRANULARITY
  const START := 0xFFFF_A000_0000_0000 // KERNEL_HEAP_START_ADDR
  const INIT_SIZE := 160 * PAGE_LEN // KHEAP_INIT_SIZE

  datatype Heap = Heap(blocks: seq<Block>, end: nat)

  // ---- specification ----

  function RoundUp(size: nat): (r: nat)
    ensures size <= r < size + GRANULE && r % GRANULE == 0
  {
    if size % GRANULE != 0 then size + GRANULE - size % GRANULE else size
  }

  /** What kmalloc_heap makes of a request. */
  function Request(size: nat): (r: nat)
    ensures size <= r && r % GRANULE == 0 && ALLOC_MIN <= r
  {
    var r := RoundUp(size);
    if r < ALLOC_MIN then ALLOC_MIN else r
  }

  function PagesFor(size: nat): nat {
    (size + HEADER + PAGE_LEN - 1) / PAGE_LEN
  }

  /** kheap_add_segment: whole pages, all of them usable. */
  function Grown(h: Heap, size: nat, free: bool): Heap {
    Heap(h.blocks + [Block(h.end, PagesFor(size) * PAGE_LEN - HEADER, free)], h.end + PagesFor(size) * PAGE_LEN)
  }

  /** kmalloc_heap for a request already rounded: first fit, or a new segment. */
  function Allocated(h: Heap, size: nat): Heap {
    var i := FirstFit(h.blocks, size);
    if i < |h.blocks| then h.(blocks := CarvedAt(h.blocks, i, size)) else Grown(h, size, false)
  }

  function AllocatedAt(h: Heap, size: nat): nat {
    var i := FirstFit(h.blocks, size);
    (if i < |h.blocks| then h.blocks[i].addr else h.end) + HEADER
  }

  // ---- tiling ----

  predicate BlockOk(start: nat, h: Heap, i: nat) {
    i < |h.blocks| ==>
      && h.blocks[i].addr == (if i == 0 then start else EndOf(h.blocks[i - 1]))
      && h.blocks[i].size >= ALLOC_MIN && h.blocks[i].size % GRANULE == 0
  }

  /** Blocks and their headers cover [start, end) with no gap and no overlap. */
  ghost predicate Tiled(start: nat, h: Heap) {
    && h.blocks != [] && start > 0 && start % PAGE_LEN == 0 && h.end % PAGE_LEN == 0 &&
       EndOf(h.blocks[|h.blocks| - 1]) == h.end
    && forall i: nat {:trigger BlockOk(start, h, i)} :: BlockOk(start, h, i)
  }

  lemma TiledIsSpaced(start: nat, h: Heap)
    requires Tiled(start, h)
    ensures Spaced(start, h.blocks)
  {
    forall i: nat
      ensures After(start, h.blocks, i)
    {
      assert BlockOk(start, h, i);
    }
  }

  lemma StillAligned(a: nat, size: nat)
    ensures a % PAGE_LEN == 0 ==> a % GRANULE == 0
    ensures a % GRANULE == 0 && size % GRANULE == 0 ==> (a + HEADER + size) % GRANULE == 0
  {
  }

  lemma {:induction false} Aligned(start: nat, h: Heap, i: nat)
    requires Tiled(start, h) && i < |h.blocks|
    ensures h.blocks[i].addr % GRANULE == 0
    decreases i
  {
    assert BlockOk(start, h, i);
    if i == 0 {
      StillAligned(start, 0);
    } else {
      Aligned(start, h, i - 1);
      assert BlockOk(start, h, i - 1);
      StillAligned(h.blocks[i - 1].addr, h.blocks[i - 1].size);
    }
  }

  lemma Within(start: nat, h: Heap, i: nat)
    requires Tiled(start, h) && i < |h.blocks|
    ensures start <= h.blocks[i].addr && EndOf(h.blocks[i]) <= h.end
  {
    TiledIsSpaced(start, h);
    FromStart(start, h.blocks, i);
    if i < |h.blocks| - 1 {
      InOrder(start, h.blocks, i, |h.blocks| - 1);
    }
  }

  lemma SplitTiles(start: nat, h: Heap, i: nat, size: nat)
    requires Tiled(start, h) && i < |h.blocks| && size % GRANULE == 0 && size >= ALLOC_MIN
    ensures Tiled(start, h.(blocks := SplitAt(h.blocks, i, size)))
  {
    var c, h' := Halves(h.blocks[i], size), h.(blocks := SplitAt(h.blocks, i, size));
    assert BlockOk(start, h, i);
    forall j: nat
      ensures BlockOk(start, h', j)
    {
      if j < i {
        assert BlockOk(start, h, j);
      } else if j >= i + |c| {
        assert BlockOk(start, h, j - |c| + 1);
      }
    }
  }

  lemma MarkTiles(start: nat, h: Heap, i: nat, free: bool)
    requires Tiled(start, h) && i < |h.blocks|
    ensures Tiled(start, h.(blocks := Marked(h.blocks, i, free)))
  {
    var h' := h.(blocks := Marked(h.blocks, i, free));
    forall j: nat
      ensures BlockOk(start, h', j)
    {
      assert BlockOk(start, h, j);
    }
  }

  lemma CarveTiles(start: nat, h: Heap, i: nat, size: nat)
    requires Tiled(start, h) && i < |h.blocks| && size % GRANULE == 0 && size >= ALLOC_MIN
    ensures Tiled(start, h.(blocks := CarvedAt(h.blocks, i, size)))
  {
    SplitTiles(start, h, i, size);
    MarkTiles(start, h.(blocks := SplitAt(h.blocks, i, size)), i, false);
    CarvedIsSplitMarked(h.blocks, i, size);
  }

  lemma GrowTiles(start: nat, h: Heap, size: nat, free: bool)
    requires Tiled(start, h)
    ensures Tiled(start, Grown(h, size, free)) && Grown(h, size, free).blocks[|h.blocks|].size >= size
  {
    var h' := Grown(h, size, free);
    forall j: nat
      ensures BlockOk(start, h', j)
    {
      assert BlockOk(start, h, j);
    }
  }

  lemma PointerAligned(addr: nat)
    requires addr % GRANULE == 0
    ensures (addr + HEADER) % GRANULE == 0
  {
  }

  /** What every allocation does: the block is new, big enough and aligned, and all else stays. */
  lemma AllocationIsSound(start: nat, h: Heap, size: nat)
    requires Tiled(start, h) && size % GRANULE == 0 && size >= ALLOC_MIN
    ensures var h', i := Allocated(h, size), FirstFit(h.blocks, size);
            && Tiled(start, h') && i < |h'.blocks|
            && h'.blocks[i].addr + HEADER == AllocatedAt(h, size) && AllocatedAt(h, size) % GRANULE == 0
            && h'.blocks[i].size >= size && !h'.blocks[i].free
            && (forall b :: b in h.blocks && !b.free ==> b in h'.blocks && b != h'.blocks[i])
            && (forall b :: b in h'.blocks && !b.free && b != h'.blocks[i] ==> b in h.blocks)
            && (h'.end != h.end <==> forall b :: b in h.blocks ==> !Fits(b, size))
  {
    var h', i := Allocated(h, size), FirstFit(h.blocks, size);
    TiledIsSpaced(start, h);
    if i < |h.blocks| {
      CarveTiles(start, h, i, size);
      CarveKeeps(start, h.blocks, i, size);
      assert h.blocks[i] in h.blocks;
    } else {
      GrowTiles(start, h, size, false);
      TiledIsSpaced(start, h');
      AppendKeeps(start, h.blocks, h'.blocks[i]);
    }
    Aligned(start, h', i);
    PointerAligned(h'.blocks[i].addr);
  }

  // ---- runs ----

  datatype Op = Malloc(size: nat) | Free(ptr: nat)

  /** init_kernel_heap: four pages, and then a segment for the rest of the initial size. */
  function Initial(): Heap {
    Grown(Heap([Block(START, 4 * PAGE_LEN - HEADER, true)], START + 4 * PAGE_LEN), INIT_SIZE - 4 * PAGE_LEN, true)
  }

  /** Freeing a pointer that is not a block's payload is not covered: it leaves the heap alone here. */
  function Step(h: Heap, op: Op): Heap {
    match op
    case Malloc(size) => if size == 0 then h else Allocated(h, Request(size))
    case Free(ptr) =>
      var i := IndexOf(h.blocks, ptr);
      if i < |h.blocks| then h.(blocks := Marked(h.blocks, i, true)) else h
  }

  function Run(h: Heap, ops: seq<Op>): Heap
    decreases |ops|
  {
    if ops == [] then h else Step(Run(h, ops[..|ops| - 1]), ops[|ops| - 1])
  }

  lemma InitialTiles()
    ensures Tiled(START, Initial())
  {
    var h := Heap([Block(START, 4 * PAGE_LEN - HEADER, true)], START + 4 * PAGE_LEN);
    assert forall i: nat :: BlockOk(START, h, i);
    GrowTiles(START, h, INIT_SIZE - 4 * PAGE_LEN, true);
  }

  lemma StepTiles(h: Heap, op: Op)
    requires Tiled(START, h)
    ensures Tiled(START, Step(h, op))
  {
    match op
    case Malloc(size) =>
      if size != 0 {
        AllocationIsSound(START, h, Request(size));
      }
    case Free(ptr) =>
      if IndexOf(h.blocks, ptr) < |h.blocks| {
        MarkTiles(START, h, IndexOf(h.blocks, ptr), true);
      }
  }

  lemma {:induction false} RunTiles(ops: seq<Op>)
    ensures Tiled(START, Run(Initial(), ops))
    decreases |ops|
  {
    if ops == [] {
      InitialTiles();
    } else {
      RunTiles(ops[..|ops| - 1]);
      StepTiles(Run(Initial(), ops[..|ops| - 1]), ops[|ops| - 1]);
    }
  }

  /** After any run the segments tile the heap, payloads are aligned and no two of them overlap. */
  lemma EveryRunTiles(ops: seq<Op>, i: nat, j: nat)
    ensures var h := Run(Initial(), ops);
            && Tiled(START, h)
            && (i < |h.blocks| ==> h.blocks[i].addr % GRANULE == 0 && START <= h.blocks[i].addr &&
                                   EndOf(h.blocks[i]) <= h.end)
            && (i < j < |h.blocks| ==> EndOf(h.blocks[i]) <= h.blocks[j].addr)
  {
    var h := Run(Initial(), ops);
    RunTiles(ops);
    TiledIsSpaced(START, h);
    if i < |h.blocks| {
      Within(START, h, i);
      Aligned(START, h, i);
      if i < j < |h.blocks| {
        InOrder(START, h.blocks, i, j);
      }
    }
  }

  // ---- what is given back is used again ----

  /** kfree_heap of a block frees that block, and every other block, address and size is as it was. */
  lemma FreeFreesOne(h: Heap, i: nat)
    requires Tiled(START, h) && i < |h.blocks|
    ensures var h' := Step(h, Free(h.blocks[i].addr + HEADER));
            && h'.end == h.end && |h'.blocks| == |h.blocks| && h'.blocks[i].free
            && h'.blocks[i].addr == h.blocks[i].addr && h'.blocks[i].size == h.blocks[i].size
            && forall j :: 0 <= j < |h.blocks| && j != i ==> h'.blocks[j] == h.blocks[j]
  {
    TiledIsSpaced(START, h);
    var k := IndexOf(h.blocks, h.blocks[i].addr + HEADER);
    AddrsDiffer(START, h.blocks, i, if k < |h.blocks| then k else i);
  }

  /** After that a request that the block can hold does not make the heap grow, and is met there or below. */
  lemma FreedIsReused(h: Heap, i: nat, size: nat)
    requires Tiled(START, h) && i < |h.blocks| && 0 < size && Request(size) <= h.blocks[i].size
    ensures var ptr := h.blocks[i].addr + HEADER;
            var h' := Step(h, Free(ptr));
            Step(h', Malloc(size)).end == h.end && AllocatedAt(h', Request(size)) <= ptr
  {
    FreeFreesOne(h, i);
    var h' := Step(h, Free(h.blocks[i].addr + HEADER));
    assert Fits(h'.blocks[i], Request(size));
    var k := FirstFit(h'.blocks, Request(size));
    StepTiles(h, Free(h.blocks[i].addr + HEADER));
    TiledIsSpaced(START, h');
    if k < i {
      InOrder(START, h'.blocks, k, i);
    }
  }

  lemma BlockHandedOut(h: Heap, want: nat)
    requires Tiled(START, h) && want % GRANULE == 0 && want >= ALLOC_MIN
    ensures var h', i := Allocated(h, want), FirstFit(h.blocks, want);
            && Tiled(START, h') && i < |h'.blocks| && h'.blocks[i].addr + HEADER == AllocatedAt(h, want)
            && h'.blocks[i].size >= want && forall j :: 0 <= j < i ==> h'.blocks[j] == h.blocks[j]
  {
    AllocationIsSound(START, h, want);
  }

  /** Allocating, freeing and allocating the same size again gives the same pointer. */
  lemma MallocFreeMalloc(h: Heap, size: nat)
    requires Tiled(START, h) && size > 0
    ensures var ptr := AllocatedAt(h, Request(size));
            AllocatedAt(Step(Step(h, Malloc(size)), Free(ptr)), Request(size)) == ptr
  {
    var want := Request(size);
    var i, h1 := FirstFit(h.blocks, want), Step(h, Malloc(size));
    BlockHandedOut(h, want);
    FreeFreesOne(h1, i);
    var h2 := Step(h1, Free(h1.blocks[i].addr + HEADER));
    FirstFitAt(h.blocks, h2.blocks, i, want);
  }

  /** A block cut from the heap has at most one header and 15 bytes more than was asked for; the rest stays free. */
  lemma LittleIsWasted(h: Heap, size: nat)
    requires Tiled(START, h) && size > 0
    ensures var want, h' := Request(size), Step(h, Malloc(size));
            var i := FirstFit(h.blocks, want);
            && size <= want <= size + GRANULE && i < |h'.blocks|
            && (if i < |h.blocks| then h'.blocks[i].size < want + HEADER + ALLOC_MIN
                else h'.blocks[i].size < want + PAGE_LEN)
            && (i < |h.blocks| && h'.blocks[i].size < h.blocks[i].size ==>
                  && i + 1 < |h'.blocks| && h'.blocks[i + 1].free
                  && EndOf(h'.blocks[i]) == h'.blocks[i + 1].addr && EndOf(h'.blocks[i + 1]) == EndOf(h.blocks[i]))
  {
    AllocationIsSound(START, h, Request(size));
  }

  lemma InitialIsFree()
    ensures |Initial().blocks| == 2 && Initial().blocks[0] == Block(START, 4 * PAGE_LEN - HEADER, true)
    ensures Initial().blocks[1].free && Initial().end == START + INIT_SIZE + PAGE_LEN
  {
  }

  // ---- the code ----

  class SegmentHeap {
    var heapEnd: nat // kheap_end
    var lastSegment: nat // kheap_last_segment
    var hdr: HeaderMap
    ghost var heap: Heap

    ghost predicate Valid()
      reads this
    {
      Tiled(START, heap) && Headers(hdr, heap.blocks) && heapEnd == heap.end && lastSegment == LastAddr(heap.blocks)
    }

    /** init_kernel_heap */
    constructor ()
      ensures Valid() && heap == Initial()
    {
      heapEnd, lastSegment := START + 4 * PAGE_LEN, START;
      hdr := map[START := Header(4 * PAGE_LEN - HEADER, 0, 0, true)];
      heap := Heap([Block(START, 4 * PAGE_LEN - HEADER, true)], START + 4 * PAGE_LEN);
      new;
      assert Valid() by {
        assert forall i: nat :: BlockOk(START, heap, i);
        assert forall i: nat :: HeaderOk(hdr, heap.blocks, i);
      }
      var seg := AddSegment(INIT_SIZE - 4 * PAGE_LEN);
    }

    /** kheap_add_segment */
    method AddSegment(len: nat) returns (seg: nat)
      requires Valid() && heap.end + len + 2 * PAGE_LEN <= WORD
      modifies this
      ensures Valid() && heap == Grown(old(heap), if len < ALLOC_MIN then ALLOC_MIN else len, true)
      ensures seg == heap.blocks[|old(heap.blocks)|].addr == old(heap.end)
    {
      var size := if len < ALLOC_MIN then ALLOC_MIN else len;
      var payload := PagesFor(size) * PAGE_LEN - HEADER;
      TiledIsSpaced(START, heap);
      GrowTiles(START, heap, size, true);
      TiledIsSpaced(START, Grown(heap, size, true));
      AppendAllHeaders(START, heap.blocks, hdr, heapEnd, payload);
      seg := heapEnd;
      hdr := AppendHeader(hdr, lastSegment, seg, payload);
      lastSegment := seg;
      heapEnd := heapEnd + PagesFor(size) * PAGE_LEN;
      heap := Grown(heap, size, true);
    }

    /** kheap_segment_split */
    method Split(seg: nat, keepSize: nat, ghost i: nat)
      requires Valid() && i < |heap.blocks| && seg == heap.blocks[i].addr
      modifies this`hdr, this`lastSegment, this`heap
      ensures Valid() && heap == old(heap).(blocks := SplitAt(old(heap.blocks), i, Request(keepSize)))
    {
      var size := Request(keepSize);
      TiledIsSpaced(START, heap);
      NextSegment(START, heap.blocks, hdr, i);
      CarvedIsSplitMarked(heap.blocks, i, size);
      if size + HEADER >= hdr[seg].size || hdr[seg].size - size - HEADER < ALLOC_MIN {
        return;
      }
      SplitTiles(START, heap, i, size);
      SplitAllHeaders(START, heap.blocks, hdr, i, size);
      AddrsDiffer(START, heap.blocks, i, |heap.blocks| - 1);
      hdr := SplitHeaders(hdr, seg, size);
      if lastSegment == seg {
        lastSegment := seg + size + HEADER;
      }
      heap := heap.(blocks := SplitAt(heap.blocks, i, size));
    }

    method Mark(seg: nat, free: bool, ghost i: nat)
      requires Valid() && i < |heap.blocks| && seg == heap.blocks[i].addr
      modifies this`hdr, this`heap
      ensures Valid() && heap == old(heap).(blocks := Marked(old(heap.blocks), i, free))
    {
      TiledIsSpaced(START, heap);
      MarkHeader(START, heap.blocks, hdr, i, free);
      MarkTiles(START, heap, i, free);
      hdr := hdr[seg := hdr[seg].(free := free)];
      heap := heap.(blocks := Marked(heap.blocks, i, free));
    }

    /** The first-fit loop of kmalloc_heap: the segment found, or null after the last one. */
    method FindFit(size: nat) returns (seg: nat, ghost i: nat)
      requires Valid()
      ensures i == FirstFit(heap.blocks, size)
      ensures if i < |heap.blocks| then seg == heap.blocks[i].addr && seg != 0 else seg == 0
    {
      seg, i := START, 0;
      assert BlockOk(START, heap, 0);
      TiledIsSpaced(START, heap);
      while true
        invariant i < |heap.blocks| && seg == heap.blocks[i].addr
        invariant forall j :: 0 <= j < i ==> !Fits(heap.blocks[j], size)
        decreases |heap.blocks| - i
      {
        NextSegment(START, heap.blocks, hdr, i);
        if hdr[seg].free && hdr[seg].size >= size {
          return;
        }
        if hdr[seg].next == 0 {
          return 0, i + 1;
        }
        seg, i := hdr[seg].next, i + 1;
      }
    }

    /** The segment found: split off what is not needed and mark it used. */
    method Take(seg: nat, want: nat, ghost i: nat)
      requires Valid() && i < |heap.blocks| && seg == heap.blocks[i].addr && Request(want) == want
      modifies this`hdr, this`lastSegment, this`heap
      ensures Valid() && heap == old(heap).(blocks := CarvedAt(old(heap.blocks), i, want))
    {
      TiledIsSpaced(START, heap);
      NextSegment(START, heap.blocks, hdr, i);
      CarvedIsSplitMarked(heap.blocks, i, want);
      if hdr[seg].size > want {
        Split(seg, want, i);
      }
      Mark(seg, false, i);
    }

    /** kmalloc_heap */
    method Malloc(size: nat) returns (ptr: nat)
      requires Valid() && heap.end + size + 3 * PAGE_LEN <= WORD
      modifies this
      ensures Valid() && heap == Step(old(heap), Op.Malloc(size))
      ensures ptr == if size == 0 then 0 else AllocatedAt(old(heap), Request(size))
    {
      if size == 0 {
        return 0;
      }
      var want := Request(size);
      ghost var i;
      var seg;
      seg, i := FindFit(want);
      if seg != 0 {
        Take(seg, want, i);
      } else {
        seg := AddSegment(want);
        Mark(seg, false, i);
        assert heap == Grown(old(heap), want, false);
      }
      return seg + HEADER;
    }

    /** kfree_heap: null is ignored, and so is a block that is free already. */
    method Free(ptr: nat)
      requires Valid() && (ptr == 0 || IndexOf(heap.blocks, ptr) < |heap.blocks|)
      modifies this`hdr, this`heap
      ensures Valid() && heap == Step(old(heap), Op.Free(ptr))
    {
      ghost var i := IndexOf(heap.blocks, ptr);
      TiledIsSpaced(START, heap);
      if i < |heap.blocks| {
        NextSegment(START, heap.blocks, hdr, i);
      }
      if ptr == 0 {
        return;
      }
      var seg := ptr - HEADER;
      if hdr[seg].free {
        return;
      }
      Mark(seg, true, i);
    }
  }
}
