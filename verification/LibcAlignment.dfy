/** Which requests leave the pointers of usr/libc/src/stdlib/alloc.c 16-byte aligned: it never rounds a size. */
module LibcAlignment {
  import opened Arithmetic
  import opened Common
  import opened SegmentList
  import opened LibcHeap

  const ALIGN := 16

  /** Every block in use has its payload at a multiple of 16. */
  ghost predicate LiveAligned(h: Heap) {
    forall i :: 0 <= i < |h.blocks| && !h.blocks[i].free ==> (h.blocks[i].addr + HEADER) % ALIGN == 0
  }

  ghost predicate AllAligned(h: Heap) {
    h.end % ALIGN == 0 && forall i :: 0 <= i < |h.blocks| ==> h.blocks[i].addr % ALIGN == 0
  }

  function SizeOf(op: Op): nat {
    match op case Malloc(size) => size case Free(_) => 0 case Realloc(_, size) => size
  }

  /** Every size asked for is z or a multiple of 16. */
  ghost predicate SizesFrom(ops: seq<Op>, z: nat) {
    forall i :: 0 <= i < |ops| ==> SizeOf(ops[i]) == z || SizeOf(ops[i]) % ALIGN == 0
  }

  lemma NextAligned(a: nat, size: nat)
    requires a % ALIGN == 0
    ensures (a + HEADER) % ALIGN == 0 && (a + HEADER + size) % ALIGN == size % ALIGN
  {
  }

  lemma PagesAligned(a: nat, n: nat)
    requires a % ALIGN == 0
    ensures (a + n * PAGE_LEN) % ALIGN == 0
  {
    assert a + n * PAGE_LEN == (a / ALIGN + n * (PAGE_LEN / ALIGN)) * ALIGN;
    MulDiv(a / ALIGN + n * (PAGE_LEN / ALIGN), ALIGN);
  }

  lemma AllocatedAligned(h: Heap, size: nat)
    requires AllAligned(h) && AtLeastMin(size) % ALIGN == 0
    ensures AllAligned(Allocated(h, size))
  {
    var i := FirstFit(h.blocks, size);
    if i < |h.blocks| {
      NextAligned(h.blocks[i].addr, AtLeastMin(size));
    } else {
      PagesAligned(h.end, PagesFor(AtLeastMin(size)));
    }
  }

  lemma StepAligned(h: Heap, op: Op)
    requires AllAligned(h) && AtLeastMin(SizeOf(op)) % ALIGN == 0
    ensures AllAligned(Step(h, op))
  {
    AllocatedAligned(h, SizeOf(op));
  }

  lemma {:induction false} RunAligned(ops: seq<Op>, z: nat)
    requires SizesFrom(ops, z) && AtLeastMin(z) % ALIGN == 0
    ensures AllAligned(Run(Initial(), ops))
    decreases |ops|
  {
    if ops == [] {
      PagesAligned(START, PagesFor(INIT_SIZE));
    } else {
      var n := |ops| - 1;
      RunAligned(ops[..n], z);
      assert SizeOf(ops[n]) == z || SizeOf(ops[n]) % ALIGN == 0;
      StepAligned(Run(Initial(), ops[..n]), ops[n]);
    }
  }

  lemma AlignedMeansLive(h: Heap)
    requires AllAligned(h)
    ensures LiveAligned(h)
  {
    forall i | 0 <= i < |h.blocks|
      ensures (h.blocks[i].addr + HEADER) % ALIGN == 0
    {
      NextAligned(h.blocks[i].addr, 0);
    }
  }

  lemma RunSnoc(h: Heap, ops: seq<Op>, op: Op)
    ensures Run(h, ops + [op]) == Step(Run(h, ops), op)
  {
    assert (ops + [op])[..|ops|] == ops;
  }

  const FIRST_END := START + PagesFor(INIT_SIZE) * PAGE_LEN

  /** A free block behind the initial one, which is in use. */
  function OneFree(size: nat): Heap {
    Heap([Block(START, INIT_SIZE, false), Block(FIRST_END, size, true)], FIRST_END + PagesFor(size) * PAGE_LEN)
  }

  lemma MakesOneFree(m: nat) returns (ops: seq<Op>)
    requires m >= ALLOC_MIN && m % ALIGN == 0
    ensures Run(Initial(), ops) == OneFree(m) && forall z :: SizesFrom(ops, z)
  {
    var h := Initial();
    assert Run(h, []) == h;
    RunSnoc(h, [], Malloc(INIT_SIZE));
    var h1 := Heap([Block(START, INIT_SIZE, false)], FIRST_END);
    assert h.blocks == [Block(START, INIT_SIZE, true)] && FirstFit(h.blocks, INIT_SIZE) == 0;
    assert Step(h, Malloc(INIT_SIZE)) == h1;
    ops := [] + [Malloc(INIT_SIZE)];
    RunSnoc(h, ops, Malloc(m));
    var h2 := Heap([Block(START, INIT_SIZE, false), Block(FIRST_END, m, false)], OneFree(m).end);
    assert FirstFit(h1.blocks, m) == 1;
    assert Step(h1, Malloc(m)) == h2;
    ops := ops + [Malloc(m)];
    RunSnoc(h, ops, Free(FIRST_END + HEADER));
    assert IndexOf(h2.blocks, FIRST_END + HEADER) == 1;
    assert Step(h2, Free(FIRST_END + HEADER)) == OneFree(m);
    ops := ops + [Free(FIRST_END + HEADER)];
  }

  /** A block of z bytes cut off it, and then one of 16. */
  lemma CutTwice(m: nat, z: nat)
    requires z > ALLOC_MIN && z + HEADER + ALLOC_MIN <= m < z + 2 * HEADER + ALLOC_MIN
    ensures Step(Step(OneFree(m), Malloc(z)), Malloc(ALLOC_MIN)).blocks ==
            [Block(START, INIT_SIZE, false), Block(FIRST_END, z, false),
             Block(FIRST_END + HEADER + z, m - z - HEADER, false)]
  {
    var h := OneFree(m);
    assert FirstFit(h.blocks, z) == 1;
    var h1 := Heap([Block(START, INIT_SIZE, false), Block(FIRST_END, z, false),
                    Block(FIRST_END + HEADER + z, m - z - HEADER, true)], h.end);
    assert Step(h, Malloc(z)) == h1;
    assert !Fits(h1.blocks[0], ALLOC_MIN) && !Fits(h1.blocks[1], ALLOC_MIN) && Fits(h1.blocks[2], ALLOC_MIN);
    var i := FirstFit(h1.blocks, ALLOC_MIN);
    assert i == 2;
  }

  /** A size for the free block that leaves too little behind z and 16 bytes for a third one. */
  lemma RoomFor(z: nat) returns (m: nat)
    requires z % ALIGN != 0
    ensures m % ALIGN == 0 && z + HEADER + ALLOC_MIN <= m < z + 2 * HEADER + ALLOC_MIN
  {
    DivMod(z, ALIGN);
    m := (z / ALIGN + 5) * ALIGN;
    Distribute(z / ALIGN, 5, ALIGN);
    MulDiv(z / ALIGN + 5, ALIGN);
  }

  lemma Misaligned(h: Heap, z: nat)
    requires z % ALIGN != 0 && |h.blocks| > 2 && !h.blocks[2].free && h.blocks[2].addr == FIRST_END + HEADER + z
    ensures !LiveAligned(h)
  {
    PagesAligned(START, PagesFor(INIT_SIZE));
    NextAligned(FIRST_END, z);
    assert (h.blocks[2].addr + HEADER) % ALIGN == z % ALIGN;
  }

  lemma MoreSizes(ops: seq<Op>, z: nat)
    requires SizesFrom(ops, z)
    ensures SizesFrom(ops + [Malloc(z)] + [Malloc(ALLOC_MIN)], z)
  {
  }

  lemma MisalignedRun(z: nat) returns (ops: seq<Op>)
    requires z > ALIGN && z % ALIGN != 0
    ensures SizesFrom(ops, z) && !LiveAligned(Run(Initial(), ops))
  {
    var m := RoomFor(z);
    ops := MakesOneFree(m);
    RunSnoc(Initial(), ops, Malloc(z));
    RunSnoc(Initial(), ops + [Malloc(z)], Malloc(ALLOC_MIN));
    CutTwice(m, z);
    MoreSizes(ops, z);
    ops := ops + [Malloc(z)] + [Malloc(ALLOC_MIN)];
    Misaligned(Run(Initial(), ops), z);
  }

  lemma AlwaysAligned(ops: seq<Op>, z: nat)
    requires SizesFrom(ops, z) && (z < ALIGN || z % ALIGN == 0)
    ensures LiveAligned(Run(Initial(), ops))
  {
    RunAligned(ops, z);
    AlignedMeansLive(Run(Initial(), ops));
  }

  /**
    Programs that ask for sizes z and multiples of 16 only: every pointer they hold is 16-byte aligned,
    in every run, if and only if z is below 16 or a multiple of it.
   */
  lemma PointersAlignedIff(z: nat)
    ensures (forall ops :: SizesFrom(ops, z) ==> LiveAligned(Run(Initial(), ops))) <==> z < ALIGN || z % ALIGN == 0
  {
    if z < ALIGN || z % ALIGN == 0 {
      forall ops | SizesFrom(ops, z)
        ensures LiveAligned(Run(Initial(), ops))
      {
        AlwaysAligned(ops, z);
      }
    } else {
      var ops := MisalignedRun(z);
    }
  }

  /** malloc(17) and malloc(1) on a fresh heap: the second pointer is 81 bytes from the start. */
  lemma SeventeenMisaligns()
    ensures AllocatedAt(Step(Initial(), Malloc(17)), 1) == START + 81 && (START + 81) % ALIGN == 1
  {
    var h := Initial();
    assert h.blocks == [Block(START, INIT_SIZE, true)] && FirstFit(h.blocks, 17) == 0;
    var h1 := Step(h, Malloc(17));
    assert h1.blocks == [Block(START, 17, false), Block(START + 49, INIT_SIZE - 49, true)];
    assert FirstFit(h1.blocks, 1) == 1;
  }
}
