/** How usr/libc/src/stdlib/alloc.c uses again what it gets back. */
module LibcReuse {
  import opened Common
  import opened SegmentList
  import opened LibcHeap

  /** free of a block frees that block, and every other block, address and size is as it was. */
  lemma FreeFreesOne(h: Heap, i: nat)
    requires Sound(h) && i < |h.blocks|
    ensures var h' := Step(h, Free(h.blocks[i].addr + HEADER));
            && h'.end == h.end && |h'.blocks| == |h.blocks| && h'.blocks[i].free
            && h'.blocks[i].addr == h.blocks[i].addr && h'.blocks[i].size == h.blocks[i].size
            && forall j :: 0 <= j < |h.blocks| && j != i ==> h'.blocks[j] == h.blocks[j]
  {
    var k := IndexOf(h.blocks, h.blocks[i].addr + HEADER);
    AddrsDiffer(START, h.blocks, i, if k < |h.blocks| then k else i);
  }

  /** After that a request that the block can hold does not make the heap grow, and is met there or below. */
  lemma FreedIsReused(h: Heap, i: nat, size: nat)
    requires Ready(h) && i < |h.blocks| && 0 < size <= h.blocks[i].size
    ensures var ptr := h.blocks[i].addr + HEADER;
            var h' := Step(h, Free(ptr));
            Step(h', Malloc(size)).end == h.end && AllocatedAt(h', size) <= ptr
  {
    FreeFreesOne(h, i);
    var h' := Step(h, Free(h.blocks[i].addr + HEADER));
    assert Fits(h'.blocks[i], size);
    var k := FirstFit(h'.blocks, size);
    FreedReady(h, h.blocks[i].addr + HEADER);
    if k < i {
      InOrder(START, h'.blocks, k, i);
    }
  }

  lemma BlockHandedOut(h: Heap, size: nat)
    requires Ready(h)
    ensures var h', i := Allocated(h, size), FirstFit(h.blocks, size);
            && Sound(h') && i < |h'.blocks| && h'.blocks[i].addr + HEADER == AllocatedAt(h, size)
            && h'.blocks[i].size >= size && !h'.blocks[i].free
            && forall j :: 0 <= j < i ==> h'.blocks[j] == h.blocks[j]
  {
    AllocationIsSound(h, size);
  }

  lemma OldBlockStays(h: Heap, size: nat, b: Block) returns (j: nat)
    requires Ready(h) && b in h.blocks && !b.free
    ensures j < |Allocated(h, size).blocks| && Allocated(h, size).blocks[j] == b && j != FirstFit(h.blocks, size)
  {
    AllocationIsSound(h, size);
    j :| 0 <= j < |Allocated(h, size).blocks| && Allocated(h, size).blocks[j] == b;
  }

  /** Allocating, freeing and allocating the same size again gives the same pointer. */
  lemma MallocFreeMalloc(h: Heap, size: nat)
    requires Ready(h) && size > 0
    ensures var ptr := AllocatedAt(h, size);
            AllocatedAt(Step(Step(h, Malloc(size)), Free(ptr)), size) == ptr
  {
    var i, h1 := FirstFit(h.blocks, size), Step(h, Malloc(size));
    BlockHandedOut(h, size);
    FreeFreesOne(h1, i);
    var h2 := Step(h1, Free(h1.blocks[i].addr + HEADER));
    FirstFitAt(h.blocks, h2.blocks, i, size);
  }

  /** A block has at most one header and 15 bytes more than was asked for; the rest of a split block stays free. */
  lemma LittleIsWasted(h: Heap, size: nat)
    requires Ready(h) && size > 0
    ensures var want, h' := AtLeastMin(size), Step(h, Malloc(size));
            var i := FirstFit(h.blocks, size);
            && i < |h'.blocks| && size <= want && (size >= ALLOC_MIN ==> want == size) && want <= size + ALLOC_MIN
            && h'.blocks[i].size < want + HEADER + ALLOC_MIN
            && (i < |h.blocks| && h'.blocks[i].size < h.blocks[i].size ==>
                  && i + 1 < |h'.blocks| && h'.blocks[i + 1].free
                  && EndOf(h'.blocks[i]) == h'.blocks[i + 1].addr && EndOf(h'.blocks[i + 1]) == EndOf(h.blocks[i]))
  {
    AllocationIsSound(h, size);
  }

  /** realloc of block i: in place if and only if it is large enough; otherwise the old block is free afterwards. */
  lemma ReallocMovesIff(h: Heap, i: nat, size: nat)
    requires Ready(h) && i < |h.blocks| && !h.blocks[i].free && size > 0
    ensures var h' := Step(h, Realloc(h.blocks[i].addr + HEADER, size));
            && (h.blocks[i].size >= size ==> h' == h)
            && (h.blocks[i].size < size ==>
                  && h.blocks[i].(free := true) in h'.blocks && h.blocks[i] !in h'.blocks
                  && exists b :: b in h'.blocks && !b.free && b.size >= size && b.addr + HEADER == AllocatedAt(h, size))
  {
    var b := h.blocks[i];
    var k := IndexOf(h.blocks, b.addr + HEADER);
    AddrsDiffer(START, h.blocks, i, if k < |h.blocks| then k else i);
    FromStart(START, h.blocks, i);
    if b.size < size {
      var h1, n := Allocated(h, size), FirstFit(h.blocks, size);
      BlockHandedOut(h, size);
      var j := OldBlockStays(h, size, b);
      FreeFreesOne(h1, j);
      OneOfEach(h1, j, b);
      var h' := Step(h1, Free(b.addr + HEADER));
      assert h'.blocks[j] == b.(free := true) && h'.blocks[n] == h1.blocks[n];
    }
  }

  /** The borders of realloc and malloc: no pointer, no size, no request. */
  lemma ReallocIsMallocOrFree(h: Heap, ptr: nat, size: nat)
    requires Sound(h) && ptr > 0
    ensures Step(h, Realloc(0, size)) == Step(h, Malloc(size)) && Step(h, Realloc(ptr, 0)) == Step(h, Free(ptr))
    ensures Step(h, Malloc(0)) == h && Step(h, Realloc(0, 0)) == h
  {
  }

  /** A block occurs at one place only, and nowhere once that is marked free. */
  lemma OneOfEach(h: Heap, j: nat, b: Block)
    requires Sound(h) && j < |h.blocks| && h.blocks[j] == b && !b.free
    ensures b !in Step(h, Free(b.addr + HEADER)).blocks
  {
    FreeFreesOne(h, j);
    var bs := Step(h, Free(b.addr + HEADER)).blocks;
    forall k | 0 <= k < |bs|
      ensures bs[k] != b
    {
      AddrsDiffer(START, h.blocks, j, k);
    }
  }
}
