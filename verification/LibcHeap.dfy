/** The user heap of usr/libc/src/stdlib/alloc.c, with the bytes that programs keep in it. */
module LibcHeap {
  import opened Arithmetic
  import opened Common
  import opened SegmentList

  const START := 0x20_0000_0000 // HEAP_START_ADDR
  const INIT_SIZE := 160 * PAGE_LEN // HEAP_INIT_SIZE

  type Bytes = map<nat, Byte>
  datatype Heap = Heap(blocks: seq<Block>, end: nat)

  // ---- specification ----

  function AtLeastMin(size: nat): nat {
    if size < ALLOC_MIN then ALLOC_MIN else size
  }

  function PagesFor(size: nat): nat {
    (size + HEADER + PAGE_LEN - 1) / PAGE_LEN
  }

  /** heap_add_segment: whole pages are mapped, but only `size` bytes of them are used. */
  function Grown(h: Heap, size: nat, free: bool): Heap {
    Heap(h.blocks + [Block(h.end, AtLeastMin(size), free)], h.end + PagesFor(AtLeastMin(size)) * PAGE_LEN)
  }

  function Allocated(h: Heap, size: nat): Heap {
    var i := FirstFit(h.blocks, size);
    if i < |h.blocks| then h.(blocks := CarvedAt(h.blocks, i, AtLeastMin(size))) else Grown(h, size, false)
  }

  function AllocatedAt(h: Heap, size: nat): nat {
    var i := FirstFit(h.blocks, size);
    (if i < |h.blocks| then h.blocks[i].addr else h.end) + HEADER
  }

  /** Blocks lie in order inside the mapped pages [START, end). */
  ghost predicate Sound(h: Heap) {
    && Spaced(START, h.blocks) && h.end % PAGE_LEN == 0 && h.end >= START
    && (h.blocks != [] ==> h.blocks[0].addr == START && EndOf(h.blocks[|h.blocks| - 1]) <= h.end)
  }

  lemma InMappedPages(h: Heap, i: nat)
    requires Sound(h) && i < |h.blocks|
    ensures START <= h.blocks[i].addr && EndOf(h.blocks[i]) <= h.end
  {
    FromStart(START, h.blocks, i);
    if i < |h.blocks| - 1 {
      InOrder(START, h.blocks, i, |h.blocks| - 1);
    }
  }

  lemma GrowSound(h: Heap, size: nat, free: bool)
    requires Sound(h) && (h.blocks == [] ==> h.end == START)
    ensures Sound(Grown(h, size, free))
  {
    var s := AtLeastMin(size);
    AppendSpaced(START, h.blocks, Block(h.end, s, free));
    assert s + HEADER <= PagesFor(s) * PAGE_LEN;
  }

  lemma SplitSound(h: Heap, i: nat, size: nat)
    requires Sound(h) && i < |h.blocks| && size >= ALLOC_MIN
    ensures Sound(h.(blocks := SplitAt(h.blocks, i, size)))
  {
    SplitSpaced(START, h.blocks, i, size);
    InMappedPages(h, i);
  }

  lemma MarkSound(h: Heap, i: nat, free: bool)
    requires Sound(h) && i < |h.blocks|
    ensures Sound(h.(blocks := Marked(h.blocks, i, free)))
  {
    MarkSpaced(START, h.blocks, i, free);
  }

  /** The block handed out is new and big enough; every live block stays, and nothing else is live. */
  lemma AllocationIsSound(h: Heap, size: nat)
    requires Sound(h) && (h.blocks == [] ==> h.end == START)
    ensures var h', i := Allocated(h, size), FirstFit(h.blocks, size);
            && Sound(h') && i < |h'.blocks|
            && h'.blocks[i].addr + HEADER == AllocatedAt(h, size) && h'.blocks[i].size >= size && !h'.blocks[i].free
            && (forall b :: b in h.blocks && !b.free ==> b in h'.blocks && b != h'.blocks[i])
            && (forall b :: b in h'.blocks && !b.free && b != h'.blocks[i] ==> b in h.blocks)
            && (h'.end != h.end <==> forall b :: b in h.blocks ==> !Fits(b, size))
  {
    var h', i := Allocated(h, size), FirstFit(h.blocks, size);
    if i < |h.blocks| {
      SplitSound(h, i, AtLeastMin(size));
      MarkSound(h.(blocks := SplitAt(h.blocks, i, AtLeastMin(size))), i, false);
      CarvedIsSplitMarked(h.blocks, i, AtLeastMin(size));
      CarveKeeps(START, h.blocks, i, AtLeastMin(size));
      assert h.blocks[i] in h.blocks;
    } else {
      GrowSound(h, size, false);
      AppendKeeps(START, h.blocks, h'.blocks[i]);
    }
  }

  // ---- runs ----

  datatype Op = Malloc(size: nat) | Free(ptr: nat) | Realloc(ptr: nat, size: nat)

  /** init_heap */
  function Initial(): Heap {
    Grown(Heap([], START), INIT_SIZE, true)
  }

  function Freed(h: Heap, ptr: nat): Heap {
    var i := IndexOf(h.blocks, ptr);
    if i < |h.blocks| then h.(blocks := Marked(h.blocks, i, true)) else h
  }

  function Mallocked(h: Heap, size: nat): Heap {
    if h.blocks == [] || size == 0 then h else Allocated(h, size)
  }

  /** Pointers that are no block's payload are not covered: they leave the heap alone here. */
  function Step(h: Heap, op: Op): Heap {
    match op
    case Malloc(size) => Mallocked(h, size)
    case Free(ptr) => Freed(h, ptr)
    case Realloc(ptr, size) =>
      var i := IndexOf(h.blocks, ptr);
      if ptr == 0 then Mallocked(h, size)
      else if size == 0 then Freed(h, ptr)
      else if i == |h.blocks| || h.blocks[i].size >= size then h
      else Freed(Mallocked(h, size), ptr)
  }

  function Run(h: Heap, ops: seq<Op>): Heap
    decreases |ops|
  {
    if ops == [] then h else Step(Run(h, ops[..|ops| - 1]), ops[|ops| - 1])
  }

  ghost predicate Ready(h: Heap) {
    Sound(h) && h.blocks != []
  }

  lemma MallockedReady(h: Heap, size: nat)
    requires Ready(h)
    ensures Ready(Mallocked(h, size))
  {
    AllocationIsSound(h, size);
  }

  lemma FreedReady(h: Heap, ptr: nat)
    requires Ready(h)
    ensures Ready(Freed(h, ptr))
  {
    var i := IndexOf(h.blocks, ptr);
    if i < |h.blocks| {
      MarkSound(h, i, true);
    }
  }

  lemma {:induction false} RunReady(ops: seq<Op>)
    ensures Ready(Run(Initial(), ops))
    decreases |ops|
  {
    if ops == [] {
      assert forall i: nat :: After(START, [], i);
      GrowSound(Heap([], START), INIT_SIZE, true);
    } else {
      RunReady(ops[..|ops| - 1]);
      var h := Run(Initial(), ops[..|ops| - 1]);
      match ops[|ops| - 1]
      case Malloc(size) => MallockedReady(h, size);
      case Free(ptr) => FreedReady(h, ptr);
      case Realloc(ptr, size) =>
        MallockedReady(h, size);
        FreedReady(h, ptr);
        FreedReady(Mallocked(h, size), ptr);
    }
  }

  /** After any run blocks lie inside mapped pages and no two of them overlap. */
  lemma EveryRunIsSound(ops: seq<Op>, i: nat, j: nat)
    ensures var h := Run(Initial(), ops);
            && Ready(h)
            && (i < |h.blocks| ==> START <= h.blocks[i].addr && EndOf(h.blocks[i]) <= h.end)
            && (i < j < |h.blocks| ==> EndOf(h.blocks[i]) <= h.blocks[j].addr)
  {
    var h := Run(Initial(), ops);
    RunReady(ops);
    if i < |h.blocks| {
      InMappedPages(h, i);
      if i < j < |h.blocks| {
        InOrder(START, h.blocks, i, j);
      }
    }
  }

  // ---- calloc's overflow check ----

  /** The division after the wrapping product rejects exactly the products of 2^64 or more. */
  lemma CallocCheck(nmemb: nat, size: nat)
    requires size < WORD
    ensures nmemb != 0 && nmemb * size % WORD / nmemb != size <==> nmemb * size >= WORD
  {
    var product := size * nmemb;
    if nmemb != 0 {
      if product < WORD {
        DivUnique(product, WORD, 0, product);
        MulDiv(size, nmemb);
      } else {
        WrappedIsSmaller(product, nmemb, size);
      }
    }
  }

  lemma WrappedIsSmaller(product: nat, nmemb: nat, size: nat)
    requires nmemb > 0 && product == size * nmemb >= WORD
    ensures product % WORD / nmemb != size
  {
    DivMod(product, WORD);
    DivBelow(product % WORD, nmemb, size);
  }

  // ---- bytes ----

  function At(mem: Bytes, a: nat): Byte {
    if a in mem then mem[a] else 0
  }

  /** Storing a header at `seg` destroys the bytes that were there. */
  function Clobber(mem: Bytes, seg: nat): Bytes {
    map a | a in mem && !(seg <= a < seg + HEADER) :: mem[a]
  }

  predicate InHeader(bs: seq<Block>, a: nat) {
    exists i :: 0 <= i < |bs| && bs[i].addr <= a < bs[i].addr + HEADER
  }

  /** The headers a split writes: the new segment's, its own and the next one's. */
  function SplitBytes(mem: Bytes, seg: nat, size: nat, next: nat): Bytes {
    var mem1 := Clobber(Clobber(mem, seg + size + HEADER), seg);
    if next != 0 then Clobber(mem1, next) else mem1
  }

  /** Only bytes that belong to a header of bs may have changed. */
  ghost predicate OnlyHeaders(mem: Bytes, mem': Bytes, bs: seq<Block>) {
    forall a: nat {:trigger At(mem', a)} :: !InHeader(bs, a) ==> At(mem', a) == At(mem, a)
  }

  ghost predicate SamePayload(mem: Bytes, mem': Bytes, b: Block) {
    forall a: nat {:trigger At(mem', a)} :: b.addr + HEADER <= a < EndOf(b) ==> At(mem', a) == At(mem, a)
  }

  /** Headers never reach into a payload. */
  lemma PayloadIsNoHeader(start: nat, bs: seq<Block>, b: Block, a: nat)
    requires Spaced(start, bs) && b in bs && b.addr + HEADER <= a < EndOf(b)
    ensures !InHeader(bs, a)
  {
    var k :| 0 <= k < |bs| && bs[k] == b;
    forall i | 0 <= i < |bs|
      ensures !(bs[i].addr <= a < bs[i].addr + HEADER)
    {
      if i < k {
        InOrder(start, bs, i, k);
      } else if k < i {
        InOrder(start, bs, k, i);
      }
    }
  }

  lemma HeadersKeepPayload(start: nat, mem: Bytes, mem': Bytes, bs: seq<Block>, b: Block)
    requires Spaced(start, bs) && OnlyHeaders(mem, mem', bs) && b in bs
    ensures SamePayload(mem, mem', b)
  {
    forall a: nat | b.addr + HEADER <= a < EndOf(b)
      ensures At(mem', a) == At(mem, a)
    {
      PayloadIsNoHeader(start, bs, b, a);
    }
  }

  /** More headers: still only headers. */
  lemma WidenHeaders(mem: Bytes, mem1: Bytes, mem2: Bytes, bs: seq<Block>, bs': seq<Block>)
    requires OnlyHeaders(mem, mem1, bs) && OnlyHeaders(mem1, mem2, bs')
    requires forall b :: b in bs ==> exists c :: c in bs' && c.addr == b.addr
    ensures OnlyHeaders(mem, mem2, bs')
  {
    forall a: nat | !InHeader(bs', a)
      ensures At(mem2, a) == At(mem, a)
    {
      forall i | 0 <= i < |bs|
        ensures !(bs[i].addr <= a < bs[i].addr + HEADER)
      {
        assert bs[i] in bs;
        var c :| c in bs' && c.addr == bs[i].addr;
        var j :| 0 <= j < |bs'| && bs'[j] == c;
      }
      assert At(mem1, a) == At(mem, a);
    }
  }

  lemma ClobberOnly(mem: Bytes, bs: seq<Block>, b: Block)
    requires b in bs
    ensures OnlyHeaders(mem, Clobber(mem, b.addr), bs)
  {
    var k :| 0 <= k < |bs| && bs[k] == b;
    var mem' := Clobber(mem, b.addr);
    forall a: nat | !InHeader(bs, a)
      ensures At(mem', a) == At(mem, a)
    {
      assert !(bs[k].addr <= a < bs[k].addr + HEADER);
    }
  }

  lemma OneMoreClobber(mem: Bytes, mem1: Bytes, bs: seq<Block>, b: Block)
    requires OnlyHeaders(mem, mem1, bs) && b in bs
    ensures OnlyHeaders(mem, Clobber(mem1, b.addr), bs)
  {
    ClobberOnly(mem1, bs, b);
    WidenHeaders(mem, mem1, Clobber(mem1, b.addr), bs, bs);
  }

  lemma TwoClobbers(mem: Bytes, bs: seq<Block>, b: Block, c: Block)
    requires b in bs && c in bs
    ensures OnlyHeaders(mem, Clobber(Clobber(mem, b.addr), c.addr), bs)
  {
    ClobberOnly(mem, bs, b);
    OneMoreClobber(mem, Clobber(mem, b.addr), bs, c);
  }

  class UserHeap {
    var heapEnd: nat // heap_end
    var lastSegment: nat // heap_last_segment
    var hdr: HeaderMap
    var mem: Bytes
    ghost var heap: Heap

    ghost predicate Valid()
      reads this
    {
      && Sound(heap) && (heap.blocks == [] ==> heap.end == START) && Headers(hdr, heap.blocks)
      && heapEnd == heap.end && lastSegment == LastAddr(heap.blocks)
    }

    /** Before init_heap nothing can be allocated. */
    constructor (bytes: Bytes)
      ensures Valid() && heap == Heap([], START) && mem == bytes
    {
      heapEnd, lastSegment, hdr, mem := START, 0, map[], bytes;
      heap := Heap([], START);
      new;
      assert forall i: nat :: After(START, [], i);
      assert forall i: nat :: HeaderOk(hdr, heap.blocks, i);
    }

    /** heap_add_segment */
    method AddSegment(len: nat) returns (seg: nat)
      requires Valid() && heap.end + len + 2 * PAGE_LEN <= WORD
      modifies this
      ensures Valid() && heap == Grown(old(heap), len, true) &&
              seg == heap.blocks[|old(heap.blocks)|].addr == old(heap.end)
      ensures OnlyHeaders(old(mem), mem, heap.blocks)
    {
      var size := AtLeastMin(len);
      ghost var bs := Grown(heap, len, true).blocks;
      GrowSound(heap, len, true);
      AppendAllHeaders(START, heap.blocks, hdr, heapEnd, size);
      seg := heapEnd;
      ghost var l, e := if heap.blocks == [] then bs[|bs| - 1] else heap.blocks[|heap.blocks| - 1], bs[|bs| - 1];
      assert l in bs && e in bs;
      TwoClobbers(mem, bs, l, e);
      ClobberOnly(mem, bs, e);
      if lastSegment != 0 {
        mem := Clobber(mem, lastSegment);
      }
      mem := Clobber(mem, seg);
      hdr := AppendHeader(hdr, lastSegment, seg, size);
      lastSegment := seg;
      heapEnd := heapEnd + PagesFor(size) * PAGE_LEN;
      heap := Grown(heap, len, true);
    }

    /** init_heap */
    method Init()
      requires Valid() && heap.blocks == []
      modifies this
      ensures Valid() && heap == Initial()
    {
      var seg := AddSegment(INIT_SIZE);
    }

    method Mark(seg: nat, free: bool, ghost i: nat)
      requires Valid() && i < |heap.blocks| && seg == heap.blocks[i].addr
      modifies this`hdr, this`heap, this`mem
      ensures Valid() && heap == old(heap).(blocks := Marked(old(heap.blocks), i, free))
      ensures OnlyHeaders(old(mem), mem, heap.blocks)
    {
      MarkHeader(START, heap.blocks, hdr, i, free);
      MarkSound(heap, i, free);
      ClobberOnly(mem, Marked(heap.blocks, i, free), Marked(heap.blocks, i, free)[i]);
      mem := Clobber(mem, seg);
      hdr := hdr[seg := hdr[seg].(free := free)];
      heap := heap.(blocks := Marked(heap.blocks, i, free));
    }

    /** The first-fit loop of malloc: the segment found, or null after the last one. */
    method FindFit(size: nat) returns (seg: nat, ghost i: nat)
      requires Valid() && heap.blocks != []
      ensures i == FirstFit(heap.blocks, size)
      ensures if i < |heap.blocks| then seg == heap.blocks[i].addr && seg != 0 else seg == 0
    {
      seg, i := START, 0;
      while true
        invariant i < |heap.blocks| && seg == heap.blocks[i].addr
        invariant forall j :: 0 <= j < i ==> !Fits(heap.blocks[j], size)
        decreases |heap.blocks| - i
      {
        NextSegment(START, heap.blocks, hdr, i);
        if hdr[seg].free && hdr[seg].size >= size {
          return;
        }
        if hdr[seg].next == 0 {
          return 0, i + 1;
        }
        seg, i := hdr[seg].next, i + 1;
      }
    }

    /** heap_segment_split */
    method Split(seg: nat, keepSize: nat, ghost i: nat)
      requires Valid() && i < |heap.blocks| && seg == heap.blocks[i].addr
      modifies this`hdr, this`lastSegment, this`heap, this`mem
      ensures Valid() && heap == old(heap).(blocks := SplitAt(old(heap.blocks), i, AtLeastMin(keepSize)))
      ensures OnlyHeaders(old(mem), mem, heap.blocks)
    {
      var size := AtLeastMin(keepSize);
      NextSegment(START, heap.blocks, hdr, i);
      CarvedIsSplitMarked(heap.blocks, i, size);
      if size + HEADER >= hdr[seg].size || hdr[seg].size - size - HEADER < ALLOC_MIN {
        return;
      }
      SplitSound(heap, i, size);
      SplitAllHeaders(START, heap.blocks, hdr, i, size);
      AddrsDiffer(START, heap.blocks, i, |heap.blocks| - 1);
      SplitClobbers(mem, heap.blocks, i, size, hdr[seg].next);
      mem := SplitBytes(mem, seg, size, hdr[seg].next);
      hdr := SplitHeaders(hdr, seg, size);
      if lastSegment == seg {
        lastSegment := seg + size + HEADER;
      }
      heap := heap.(blocks := SplitAt(heap.blocks, i, size));
    }

    /** The segment found: split off what is not needed and mark it used. */
    method Take(seg: nat, size: nat, ghost i: nat)
      requires Valid() && i < |heap.blocks| && seg == heap.blocks[i].addr
      modifies this`hdr, this`lastSegment, this`heap, this`mem
      ensures Valid() && heap == old(heap).(blocks := CarvedAt(old(heap.blocks), i, AtLeastMin(size)))
      ensures OnlyHeaders(old(mem), mem, heap.blocks)
    {
      NextSegment(START, heap.blocks, hdr, i);
      CarvedIsSplitMarked(heap.blocks, i, AtLeastMin(size));
      if hdr[seg].size > size {
        Split(seg, size, i);
      }
      ghost var bs, mem1 := heap.blocks, mem;
      Mark(seg, false, i);
      MarkedAddrs(bs, i, false);
      assert OnlyHeaders(old(mem), mem1, bs);
      WidenHeaders(old(mem), mem1, mem, bs, heap.blocks);
    }

    /** malloc, with the promise that no live block notices. */
    method Malloc(size: nat) returns (ptr: nat)
      requires Valid() && heap.end + size + 2 * PAGE_LEN <= WORD
      modifies this
      ensures Valid() && heap == Mallocked(old(heap), size)
      ensures ptr == if old(heap).blocks == [] || size == 0 then 0 else AllocatedAt(old(heap), size)
      ensures Kept(old(mem), old(heap).blocks, mem, heap.blocks, 0)
    {
      if lastSegment == 0 || size == 0 {
        SegmentNotNull(heap);
        NothingHappens(mem, heap.blocks);
        return 0;
      }
      AllocationIsSound(heap, size);
      ghost var i;
      var seg;
      seg, i := FindFit(size);
      if seg != 0 {
        Take(seg, size, i);
      } else {
        seg := AddSegment(size);
        ghost var bs, mem1 := heap.blocks, mem;
        Mark(seg, false, i);
        MarkedAddrs(bs, i, false);
        WidenHeaders(old(mem), mem1, mem, bs, heap.blocks);
        assert heap == Grown(old(heap), size, false);
      }
      AllKept(old(mem), old(heap).blocks, mem, heap.blocks);
      return seg + HEADER;
    }

    /** free: null is ignored, and so is a block that is free already. */
    method Free(ptr: nat)
      requires Valid() && (ptr == 0 || IndexOf(heap.blocks, ptr) < |heap.blocks|)
      modifies this`hdr, this`heap, this`mem
      ensures Valid() && heap == Freed(old(heap), ptr)
      ensures Kept(old(mem), old(heap).blocks, mem, heap.blocks, ptr)
    {
      ghost var i := IndexOf(heap.blocks, ptr);
      NothingHappens(mem, heap.blocks);
      if i < |heap.blocks| {
        NextSegment(START, heap.blocks, hdr, i);
      }
      if ptr == 0 {
        return;
      }
      var seg := ptr - HEADER;
      if hdr[seg].free {
        return;
      }
      Mark(seg, true, i);
      FreeKeeps(old(mem), old(heap).blocks, mem, i);
    }

    method MemCopy(to: nat, from: nat, n: nat)
      requires from + n <= to || to + n <= from
      modifies this`mem
      ensures Moved(old(mem), mem, to, from, n)
    {
      var k := 0;
      while k < n
        invariant k <= n && Moved(old(mem), mem, to, from, k)
      {
        MovedStep(old(mem), mem, to, from, k);
        mem := mem[to + k := At(mem, from + k)];
        k := k + 1;
      }
    }

    method MemZero(to: nat, n: nat)
      modifies this`mem
      ensures Filled(old(mem), mem, to, n)
    {
      var k := 0;
      while k < n
        invariant k <= n && Filled(old(mem), mem, to, k)
      {
        FilledStep(old(mem), mem, to, k);
        mem := mem[to + k := 0];
        k := k + 1;
      }
    }

    /**
      calloc: null exactly for an overflowing or empty product (or an uninitialised heap); otherwise
      a new block whose bytes are zero, and no live block notices.
     */
    method Calloc(nmemb: nat, size: nat) returns (ptr: nat)
      requires Valid() && nmemb < WORD && size < WORD
      requires nmemb * size < WORD ==> heap.end + nmemb * size + 2 * PAGE_LEN <= WORD
      modifies this
      ensures Valid()
      ensures ptr == 0 <==> nmemb * size >= WORD || nmemb * size == 0 || old(heap).blocks == []
      ensures heap == if nmemb * size >= WORD then old(heap) else Mallocked(old(heap), nmemb * size)
      ensures ptr != 0 ==> ptr == AllocatedAt(old(heap), nmemb * size)
      ensures ptr != 0 ==> forall a: nat {:trigger At(mem, a)} :: ptr <= a < ptr + nmemb * size ==> At(mem, a) == 0
      ensures Kept(old(mem), old(heap).blocks, mem, heap.blocks, 0)
    {
      CallocCheck(nmemb, size);
      var total := nmemb * size % WORD;
      if nmemb != 0 && total / nmemb != size {
        NothingHappens(mem, heap.blocks);
        return 0;
      }
      assert total == nmemb * size;
      ptr := Malloc(total);
      if ptr == 0 {
        return;
      }
      AllocationIsSound(old(heap), total);
      ghost var i, mem1 := FirstFit(old(heap).blocks, total), mem;
      MemZero(ptr, total);
      WriteInside(heap.blocks, mem1, mem, i, total);
      StillKept(old(mem), old(heap).blocks, mem1, mem, heap.blocks, heap.blocks[i], 0);
    }

    /** The part of realloc that may have to move block b. */
    method Resize(ptr: nat, size: nat, ghost b: Block) returns (res: nat)
      requires Valid() && heap.end + size + 2 * PAGE_LEN <= WORD && size > 0
      requires b in heap.blocks && !b.free && ptr == b.addr + HEADER
      modifies this
      ensures Valid() && heap == Step(old(heap), Op.Realloc(ptr, size)) && res != 0
      ensures Kept(old(mem), old(heap).blocks, mem, heap.blocks, ptr)
      ensures Holds(heap.blocks, res, size) && Same(old(mem), mem, ptr, res, b.size)
    {
      FoundBlock(heap.blocks, b);
      NextSegment(START, heap.blocks, hdr, IndexOf(heap.blocks, ptr));
      var seg := ptr - HEADER;
      if hdr[seg].size >= size {
        NothingHappens(mem, heap.blocks);
        return ptr;
      }
      ghost var bs0, mem0 := heap.blocks, mem;
      AllocationIsSound(heap, size);
      ghost var i := FirstFit(heap.blocks, size);
      res := Malloc(size);
      Move(ptr, res, b, i, bs0, mem0);
    }

    /** realloc's memcpy into the new block and free of the old one. */
    method Move(ptr: nat, res: nat, ghost b: Block, ghost i: nat, ghost bs0: seq<Block>, ghost mem0: Bytes)
      requires Valid() && i < |heap.blocks| && b in heap.blocks && b in bs0 && !b.free &&
               Kept(mem0, bs0, mem, heap.blocks, 0)
      requires ptr == b.addr + HEADER && res == heap.blocks[i].addr + HEADER && !heap.blocks[i].free &&
               heap.blocks[i].size >= b.size
      requires forall c :: c in bs0 && !c.free ==> c != heap.blocks[i]
      modifies this`hdr, this`heap, this`mem
      ensures Valid() && heap == Freed(old(heap), ptr)
      ensures Kept(mem0, bs0, mem, heap.blocks, ptr)
      ensures Holds(heap.blocks, res, old(heap).blocks[i].size) && Same(mem0, mem, ptr, res, b.size)
    {
      ghost var bs1, mem1, nb := heap.blocks, mem, heap.blocks[i];
      FoundBlock(bs1, b);
      FoundBlock(bs1, nb);
      NextSegment(START, bs1, hdr, IndexOf(bs1, ptr));
      BlocksApart(bs1, b, nb);
      MemCopy(res, ptr, hdr[ptr - HEADER].size);
      ghost var mem2 := mem;
      WriteInside(bs1, mem1, mem2, i, b.size);
      StillKept(mem0, bs0, mem1, mem2, bs1, nb, 0);
      Free(ptr);
      AfterMove(mem0, bs0, mem1, mem2, bs1, mem, heap.blocks, b, nb, res, ptr);
    }

    /** realloc of a live block, or of null. */
    method Realloc(ptr: nat, size: nat) returns (res: nat)
      requires Valid() && heap.end + size + 2 * PAGE_LEN <= WORD
      requires ptr == 0 || (IndexOf(heap.blocks, ptr) < |heap.blocks| && !heap.blocks[IndexOf(heap.blocks, ptr)].free)
      modifies this
      ensures Valid() && heap == Step(old(heap), Op.Realloc(ptr, size))
      ensures res == 0 <==> size == 0 || old(heap).blocks == []
      ensures Kept(old(mem), old(heap).blocks, mem, heap.blocks, ptr)
      ensures res != 0 ==> Holds(heap.blocks, res, size)
      ensures ptr != 0 && res != 0 ==>
                Same(old(mem), mem, ptr, res, old(heap).blocks[IndexOf(old(heap).blocks, ptr)].size)
    {
      if ptr == 0 {
        AllocationIsSound(heap, size);
        ghost var i := FirstFit(heap.blocks, size);
        res := Malloc(size);
        if res != 0 {
          FoundBlock(heap.blocks, heap.blocks[i]);
        }
        return;
      }
      if size == 0 {
        Free(ptr);
        return 0;
      }
      res := Resize(ptr, size, heap.blocks[IndexOf(heap.blocks, ptr)]);
    }
  }

  /** A live block of at least `size` bytes has its payload at ptr. */
  ghost predicate Holds(bs: seq<Block>, ptr: nat, size: nat) {
    IndexOf(bs, ptr) < |bs| && !bs[IndexOf(bs, ptr)].free && bs[IndexOf(bs, ptr)].size >= size
  }

  /** The n bytes at q are what the n bytes at p were. */
  ghost predicate Same(mem: Bytes, mem': Bytes, p: nat, q: nat, n: nat) {
    forall a: nat {:trigger At(mem', a)} :: q <= a < q + n ==> At(mem', a) == At(mem, p + (a - q))
  }

  lemma FoundBlock(bs: seq<Block>, b: Block)
    requires Spaced(START, bs) && b in bs
    ensures IndexOf(bs, b.addr + HEADER) < |bs| && bs[IndexOf(bs, b.addr + HEADER)] == b && b.addr > 0
  {
    var k :| 0 <= k < |bs| && bs[k] == b;
    var i := IndexOf(bs, b.addr + HEADER);
    FromStart(START, bs, k);
    AddrsDiffer(START, bs, k, i);
  }

  lemma BlocksApart(bs: seq<Block>, b: Block, c: Block)
    requires Spaced(START, bs) && b in bs && c in bs && b != c
    ensures EndOf(b) <= c.addr || EndOf(c) <= b.addr
  {
    var i :| 0 <= i < |bs| && bs[i] == b;
    var j :| 0 <= j < |bs| && bs[j] == c;
    if i < j {
      InOrder(START, bs, i, j);
    } else {
      InOrder(START, bs, j, i);
    }
  }

  lemma StillKept(mem: Bytes, bs: seq<Block>, mem1: Bytes, mem2: Bytes, bs1: seq<Block>, hole: Block, except: nat)
    requires Kept(mem, bs, mem1, bs1, except)
    requires forall b :: b in bs1 && b != hole ==> SamePayload(mem1, mem2, b)
    requires forall b :: b in bs && !b.free ==> b != hole
    ensures Kept(mem, bs, mem2, bs1, except)
  {
    forall b | b in bs && !b.free && b.addr + HEADER != except
      ensures b in bs1 && SamePayload(mem, mem2, b)
    {
      assert SamePayload(mem, mem1, b) && SamePayload(mem1, mem2, b);
      PayloadTwice(mem, mem1, mem2, b);
    }
  }

  lemma PayloadTwice(mem: Bytes, mem1: Bytes, mem2: Bytes, b: Block)
    requires SamePayload(mem, mem1, b) && SamePayload(mem1, mem2, b)
    ensures SamePayload(mem, mem2, b)
  {
    forall a: nat | b.addr + HEADER <= a < EndOf(b)
      ensures At(mem2, a) == At(mem, a)
    {
      assert At(mem1, a) == At(mem, a);
    }
  }

  /** After the copy and the free: the moved bytes and every bystander are where they should be. */
  lemma AfterMove(mem0: Bytes, bs0: seq<Block>, mem1: Bytes, mem2: Bytes, bs1: seq<Block>, mem3: Bytes, bs3: seq<Block>,
                  b: Block, nb: Block, res: nat, ptr: nat)
    requires Spaced(START, bs3) && Kept(mem0, bs0, mem2, bs1, 0) && Kept(mem2, bs1, mem3, bs3, ptr)
    requires SamePayload(mem0, mem1, b) && Moved(mem1, mem2, res, ptr, b.size)
    requires ptr == b.addr + HEADER && res == nb.addr + HEADER && nb in bs1 && !nb.free && nb.size >= b.size &&
             nb.addr != b.addr
    ensures Kept(mem0, bs0, mem3, bs3, ptr)
    ensures nb in bs3 && IndexOf(bs3, res) < |bs3| && bs3[IndexOf(bs3, res)] == nb
    ensures Same(mem0, mem3, ptr, res, b.size)
  {
    forall c | c in bs0 && !c.free && c.addr + HEADER != ptr
      ensures c in bs3 && SamePayload(mem0, mem3, c)
    {
      assert c in bs1 && SamePayload(mem0, mem2, c) && SamePayload(mem2, mem3, c);
      PayloadTwice(mem0, mem2, mem3, c);
    }
    assert nb in bs3 && SamePayload(mem2, mem3, nb);
    FoundBlock(bs3, nb);
    forall a: nat | res <= a < res + b.size
      ensures At(mem3, a) == At(mem0, ptr + (a - res))
    {
      assert At(mem3, a) == At(mem2, a);
      assert At(mem2, a) == At(mem1, ptr + (a - res));
    }
  }

  /** The n bytes from `to` on were those from `from` on; no other byte changed. */
  ghost predicate Moved(mem: Bytes, mem': Bytes, to: nat, from: nat, n: nat) {
    && (forall a: nat {:trigger At(mem', a)} :: to <= a < to + n ==> At(mem', a) == At(mem, from + (a - to)))
    && (forall a: nat {:trigger At(mem', a)} :: !(to <= a < to + n) ==> At(mem', a) == At(mem, a))
  }

  ghost predicate Filled(mem: Bytes, mem': Bytes, to: nat, n: nat) {
    && (forall a: nat {:trigger At(mem', a)} :: to <= a < to + n ==> At(mem', a) == 0)
    && (forall a: nat {:trigger At(mem', a)} :: !(to <= a < to + n) ==> At(mem', a) == At(mem, a))
  }

  lemma MovedStep(mem: Bytes, mem1: Bytes, to: nat, from: nat, k: nat)
    requires Moved(mem, mem1, to, from, k) && !(to <= from + k < to + k)
    ensures Moved(mem, mem1[to + k := At(mem1, from + k)], to, from, k + 1)
  {
    var mem2 := mem1[to + k := At(mem1, from + k)];
    forall a: nat | to <= a < to + k + 1
      ensures At(mem2, a) == At(mem, from + (a - to))
    {
      assert At(mem2, a) == if a == to + k then At(mem1, from + k) else At(mem1, a);
    }
    forall a: nat | !(to <= a < to + k + 1)
      ensures At(mem2, a) == At(mem, a)
    {
      assert At(mem2, a) == At(mem1, a);
    }
  }

  lemma FilledStep(mem: Bytes, mem1: Bytes, to: nat, k: nat)
    requires Filled(mem, mem1, to, k)
    ensures Filled(mem, mem1[to + k := 0], to, k + 1)
  {
    var mem2 := mem1[to + k := 0];
    forall a: nat
      ensures At(mem2, a) == if to <= a < to + k + 1 then 0 else At(mem, a)
    {
      assert At(mem2, a) == if a == to + k then 0 else At(mem1, a);
    }
  }

  /** Writing inside one live block leaves every other one alone. */
  lemma WriteInside(bs: seq<Block>, mem: Bytes, mem': Bytes, i: nat, n: nat)
    requires Spaced(START, bs) && i < |bs| && n <= bs[i].size
    requires forall a: nat {:trigger At(mem', a)} :: !(bs[i].addr + HEADER <= a < bs[i].addr + HEADER + n) ==>
               At(mem', a) == At(mem, a)
    ensures forall b :: b in bs && b != bs[i] ==> SamePayload(mem, mem', b)
  {
    forall b | b in bs && b != bs[i]
      ensures SamePayload(mem, mem', b)
    {
      var k :| 0 <= k < |bs| && bs[k] == b;
      if k < i {
        InOrder(START, bs, k, i);
      } else {
        InOrder(START, bs, i, k);
      }
    }
  }

  lemma SplitClobbers(mem: Bytes, bs: seq<Block>, i: nat, size: nat, next: nat)
    requires i < |bs| && CanSplit(bs[i], size) && next == if i + 1 < |bs| then bs[i + 1].addr else 0
    ensures OnlyHeaders(mem, SplitBytes(mem, bs[i].addr, size, next), SplitAt(bs, i, size))
  {
    var bs' := SplitAt(bs, i, size);
    TwoClobbers(mem, bs', bs'[i + 1], bs'[i]);
    if next != 0 {
      assert bs'[i + 2] == bs[i + 1];
      OneMoreClobber(mem, Clobber(Clobber(mem, bs[i].addr + size + HEADER), bs[i].addr), bs', bs'[i + 2]);
    }
  }

  lemma MarkedAddrs(bs: seq<Block>, i: nat, free: bool)
    requires i < |bs|
    ensures forall b :: b in bs ==> exists c :: c in Marked(bs, i, free) && c.addr == b.addr
  {
    var bs' := Marked(bs, i, free);
    forall b | b in bs
      ensures exists c :: c in bs' && c.addr == b.addr
    {
      var k :| 0 <= k < |bs| && bs[k] == b;
      assert bs'[k] in bs' && bs'[k].addr == b.addr;
    }
  }

  /** Every live block but the one at `except` is still there with the same bytes. */
  ghost predicate Kept(mem: Bytes, bs: seq<Block>, mem': Bytes, bs': seq<Block>, except: nat) {
    forall b :: b in bs && !b.free && b.addr + HEADER != except ==> b in bs' && SamePayload(mem, mem', b)
  }

  lemma AllKept(mem: Bytes, bs: seq<Block>, mem': Bytes, bs': seq<Block>)
    requires Spaced(START, bs') && OnlyHeaders(mem, mem', bs') && forall b :: b in bs && !b.free ==> b in bs'
    ensures Kept(mem, bs, mem', bs', 0)
  {
    forall b | b in bs && !b.free
      ensures b in bs' && SamePayload(mem, mem', b)
    {
      HeadersKeepPayload(START, mem, mem', bs', b);
    }
  }

  lemma NothingHappens(mem: Bytes, bs: seq<Block>)
    ensures forall ptr: nat {:trigger Kept(mem, bs, mem, bs, ptr)} :: Kept(mem, bs, mem, bs, ptr)
  {
  }

  lemma SegmentNotNull(h: Heap)
    requires Sound(h)
    ensures LastAddr(h.blocks) == 0 <==> h.blocks == []
  {
    if h.blocks != [] {
      FromStart(START, h.blocks, |h.blocks| - 1);
    }
  }

  lemma FreeKeeps(mem: Bytes, bs: seq<Block>, mem': Bytes, i: nat)
    requires i < |bs| && Spaced(START, Marked(bs, i, true)) && OnlyHeaders(mem, mem', Marked(bs, i, true))
    ensures Kept(mem, bs, mem', Marked(bs, i, true), bs[i].addr + HEADER)
  {
    var bs' := Marked(bs, i, true);
    forall b | b in bs && !b.free && b.addr != bs[i].addr
      ensures b in bs' && SamePayload(mem, mem', b)
    {
      var k :| 0 <= k < |bs| && bs[k] == b;
      assert bs'[k] == b;
      HeadersKeepPayload(START, mem, mem', bs', b);
    }
  }
}
