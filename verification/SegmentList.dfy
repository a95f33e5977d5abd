/**
  Heap segments as src/memory/kmalloc.c and usr/libc/src/stdlib/alloc.c both keep them: a header in
  front of every block, and the headers linked in order of address.
 */
module SegmentList {
  import opened Common

  const HEADER := 32 // HEAP_HEADER_LEN
  const ALLOC_MIN := 16 // HEAP_ALLOC_MIN

  datatype Block = Block(addr: nat, size: nat, free: bool)
  datatype Header = Header(size: nat, next: nat, prev: nat, free: bool)

  type HeaderMap = map<nat, Header>

  function EndOf(b: Block): nat {
    b.addr + HEADER + b.size
  }

  // ---- specification ----

  predicate Fits(b: Block, size: nat) {
    b.free && b.size >= size
  }

  /** The lowest-addressed free block that fits, or the number of blocks. */
  function FirstFit(blocks: seq<Block>, size: nat): (i: nat)
    ensures i <= |blocks| && (forall j :: 0 <= j < i ==> !Fits(blocks[j], size)) &&
            (i < |blocks| ==> Fits(blocks[i], size))
  {
    if blocks == [] || Fits(blocks[0], size) then 0 else FirstFit(blocks[1..], size) + 1
  }

  /** What does not fit below i in bs does not fit in a sequence with the same blocks below i. */
  lemma FirstFitAt(bs: seq<Block>, bs': seq<Block>, i: nat, size: nat)
    requires i == FirstFit(bs, size) && i < |bs'| && Fits(bs'[i], size)
    requires forall j :: 0 <= j < i ==> bs'[j] == bs[j]
    ensures FirstFit(bs', size) == i
  {
    forall j | 0 <= j < i
      ensures !Fits(bs'[j], size)
    {
      assert !Fits(bs[j], size);
    }
  }

  /** The block with payload at ptr, or the number of blocks. */
  function IndexOf(blocks: seq<Block>, ptr: nat): (i: nat)
    ensures i <= |blocks| && (i < |blocks| ==> blocks[i].addr + HEADER == ptr)
    ensures forall j :: 0 <= j < i ==> blocks[j].addr + HEADER != ptr
  {
    if blocks == [] || blocks[0].addr + HEADER == ptr then 0 else IndexOf(blocks[1..], ptr) + 1
  }

  predicate CanSplit(b: Block, size: nat) {
    size + HEADER < b.size && b.size - size - HEADER >= ALLOC_MIN
  }

  /** A block cut down to `size` bytes, and what is left of it if that is worth a header. */
  function Halves(b: Block, size: nat): (s: seq<Block>)
    ensures s != []
  {
    if CanSplit(b, size) then [b.(size := size), Block(b.addr + HEADER + size, b.size - size - HEADER, true)] else [b]
  }

  function Carve(b: Block, size: nat): seq<Block> {
    var s := Halves(b, size);
    s[0 := s[0].(free := false)]
  }

  function SplitAt(bs: seq<Block>, i: nat, size: nat): seq<Block>
    requires i < |bs|
  {
    bs[..i] + Halves(bs[i], size) + bs[i + 1..]
  }

  function CarvedAt(bs: seq<Block>, i: nat, size: nat): seq<Block>
    requires i < |bs|
  {
    bs[..i] + Carve(bs[i], size) + bs[i + 1..]
  }

  function Marked(bs: seq<Block>, i: nat, free: bool): seq<Block>
    requires i < |bs|
  {
    bs[i := bs[i].(free := free)]
  }

  lemma CarvedIsSplitMarked(bs: seq<Block>, i: nat, size: nat)
    requires i < |bs|
    ensures Marked(SplitAt(bs, i, size), i, false) == CarvedAt(bs, i, size)
    ensures !CanSplit(bs[i], size) ==> SplitAt(bs, i, size) == bs
  {
  }

  // ---- order of addresses ----

  predicate After(start: nat, bs: seq<Block>, i: nat) {
    i < |bs| ==> bs[i].size >= ALLOC_MIN && bs[i].addr >= if i == 0 then start else EndOf(bs[i - 1])
  }

  /** Blocks with their headers follow each other without overlap. */
  ghost predicate Spaced(start: nat, bs: seq<Block>) {
    start > 0 && forall i: nat {:trigger After(start, bs, i)} :: After(start, bs, i)
  }

  lemma {:induction false} InOrder(start: nat, bs: seq<Block>, i: nat, j: nat)
    requires Spaced(start, bs) && i < j < |bs|
    ensures EndOf(bs[i]) <= bs[j].addr
    decreases j
  {
    assert After(start, bs, j);
    if i < j - 1 {
      InOrder(start, bs, i, j - 1);
    }
  }

  lemma {:induction false} FromStart(start: nat, bs: seq<Block>, i: nat)
    requires Spaced(start, bs) && i < |bs|
    ensures start <= bs[i].addr
    decreases i
  {
    assert After(start, bs, i);
    if i > 0 {
      FromStart(start, bs, i - 1);
    }
  }

  lemma AddrsDiffer(start: nat, bs: seq<Block>, i: nat, j: nat)
    requires Spaced(start, bs) && i < |bs| && j < |bs|
    ensures bs[i].addr == bs[j].addr <==> i == j
  {
    if i < j {
      InOrder(start, bs, i, j);
    } else if j < i {
      InOrder(start, bs, j, i);
    }
  }

  lemma MarkSpaced(start: nat, bs: seq<Block>, i: nat, free: bool)
    requires Spaced(start, bs) && i < |bs|
    ensures Spaced(start, Marked(bs, i, free))
  {
    var bs' := Marked(bs, i, free);
    forall j: nat
      ensures After(start, bs', j)
    {
      assert After(start, bs, j);
    }
  }

  lemma SplitSpaced(start: nat, bs: seq<Block>, i: nat, size: nat)
    requires Spaced(start, bs) && i < |bs| && size >= ALLOC_MIN
    ensures Spaced(start, SplitAt(bs, i, size))
    ensures EndOf(Halves(bs[i], size)[|Halves(bs[i], size)| - 1]) == EndOf(bs[i])
  {
    var bs', c := SplitAt(bs, i, size), Halves(bs[i], size);
    assert After(start, bs, i);
    forall j: nat
      ensures After(start, bs', j)
    {
      if j < i {
        assert After(start, bs, j);
      } else if j >= i + |c| {
        assert After(start, bs, j - |c| + 1);
      }
    }
  }

  lemma AppendSpaced(start: nat, bs: seq<Block>, b: Block)
    requires Spaced(start, bs) && b.size >= ALLOC_MIN && b.addr >= if bs == [] then start else EndOf(bs[|bs| - 1])
    ensures Spaced(start, bs + [b])
  {
    forall j: nat
      ensures After(start, bs + [b], j)
    {
      assert After(start, bs, j);
    }
  }

  /** Taking a free block disturbs no live one and adds exactly itself. */
  lemma CarveKeeps(start: nat, bs: seq<Block>, i: nat, size: nat)
    requires Spaced(start, bs) && i < |bs| && bs[i].free
    ensures var bs' := CarvedAt(bs, i, size);
            && (forall b :: b in bs && !b.free ==> b in bs' && b != bs'[i])
            && (forall b :: b in bs' && !b.free && b != bs'[i] ==> b in bs)
  {
    var c, bs' := Carve(bs[i], size), CarvedAt(bs, i, size);
    forall b | b in bs && !b.free
      ensures b in bs' && b != bs'[i]
    {
      var j :| 0 <= j < |bs| && bs[j] == b;
      if j < i {
        InOrder(start, bs, j, i);
        assert bs'[j] == b;
      } else {
        InOrder(start, bs, i, j);
        assert bs'[j - 1 + |c|] == b;
      }
    }
    forall b | b in bs' && !b.free && b != bs'[i]
      ensures b in bs
    {
      var j :| 0 <= j < |bs'| && bs'[j] == b;
      if j < i {
        assert bs[j] == b;
      } else if j >= i + |c| {
        assert bs[j + 1 - |c|] == b;
      }
    }
  }

  lemma AppendKeeps(start: nat, bs: seq<Block>, b': Block)
    requires Spaced(start, bs + [b'])
    ensures forall b :: b in bs ==> b in bs + [b'] && b != b'
    ensures forall b :: b in bs + [b'] && b != b' ==> b in bs
  {
    forall b | b in bs
      ensures b != b'
    {
      var j :| 0 <= j < |bs| && bs[j] == b;
      InOrder(start, bs + [b'], j, |bs|);
    }
  }

  // ---- headers ----

  function NextAddr(bs: seq<Block>, i: int): nat {
    if 0 <= i + 1 < |bs| then bs[i + 1].addr else 0
  }

  function PrevAddr(bs: seq<Block>, i: int): nat {
    if 0 < i <= |bs| then bs[i - 1].addr else 0
  }

  ghost predicate HeaderOk(hdr: HeaderMap, bs: seq<Block>, i: nat) {
    i < |bs| ==>
      bs[i].addr in hdr && hdr[bs[i].addr] == Header(bs[i].size, NextAddr(bs, i), PrevAddr(bs, i), bs[i].free)
  }

  ghost predicate Headers(hdr: HeaderMap, bs: seq<Block>) {
    forall i: nat {:trigger HeaderOk(hdr, bs, i)} :: HeaderOk(hdr, bs, i)
  }

  lemma MarkHeader(start: nat, bs: seq<Block>, hdr: HeaderMap, i: nat, free: bool)
    requires Spaced(start, bs) && Headers(hdr, bs) && i < |bs|
    ensures bs[i].addr in hdr
    ensures var a := bs[i].addr; Headers(hdr[a := hdr[a].(free := free)], Marked(bs, i, free))
  {
    assert HeaderOk(hdr, bs, i);
    var a := bs[i].addr;
    var hdr', bs' := hdr[a := hdr[a].(free := free)], Marked(bs, i, free);
    forall j: nat
      ensures HeaderOk(hdr', bs', j)
    {
      assert HeaderOk(hdr, bs, j);
      if j < |bs| {
        AddrsDiffer(start, bs, i, j);
      }
    }
  }

  /** The stores of kheap_segment_split and heap_segment_split. */
  function SplitHeaders(hdr: HeaderMap, seg: nat, size: nat): HeaderMap
    requires seg in hdr && size + HEADER <= hdr[seg].size
  {
    var rest := seg + size + HEADER;
    var s := hdr[seg];
    var hdr1 := hdr[rest := Header(s.size - size - HEADER, s.next, seg, true)];
    var hdr2 := hdr1[seg := s.(size := size)];
    var hdr3 := if s.next != 0 && s.next in hdr2 then hdr2[s.next := hdr2[s.next].(prev := rest)] else hdr2;
    hdr3[seg := s.(size := size, next := rest)]
  }

  lemma SplitHeader(start: nat, bs: seq<Block>, hdr: HeaderMap, i: nat, size: nat, j: nat)
    requires Spaced(start, bs) && Headers(hdr, bs) && i < |bs| && CanSplit(bs[i], size)
    requires bs[i].addr in hdr && hdr[bs[i].addr].size == bs[i].size
    ensures HeaderOk(SplitHeaders(hdr, bs[i].addr, size), SplitAt(bs, i, size), j)
  {
    var bs' := SplitAt(bs, i, size);
    assert HeaderOk(hdr, bs, i) && bs'[i + 1].addr == bs[i].addr + size + HEADER;
    if i + 1 < |bs| {
      assert HeaderOk(hdr, bs, i + 1);
      InOrder(start, bs, i, i + 1);
      FromStart(start, bs, i + 1);
    }
    if j < i {
      assert HeaderOk(hdr, bs, j);
      InOrder(start, bs, j, i);
    } else if i + 1 < j < |bs'| {
      assert HeaderOk(hdr, bs, j - 1);
      InOrder(start, bs, i, j - 1);
      AddrsDiffer(start, bs, j - 1, i + 1);
    }
  }

  lemma SplitAllHeaders(start: nat, bs: seq<Block>, hdr: HeaderMap, i: nat, size: nat)
    requires Spaced(start, bs) && Headers(hdr, bs) && i < |bs| && CanSplit(bs[i], size)
    ensures bs[i].addr in hdr && hdr[bs[i].addr].size == bs[i].size
    ensures Headers(SplitHeaders(hdr, bs[i].addr, size), SplitAt(bs, i, size))
  {
    assert HeaderOk(hdr, bs, i);
    var hdr', bs' := SplitHeaders(hdr, bs[i].addr, size), SplitAt(bs, i, size);
    forall j: nat
      ensures HeaderOk(hdr', bs', j)
    {
      SplitHeader(start, bs, hdr, i, size, j);
    }
  }

  /** The stores of kheap_add_segment and heap_add_segment. */
  function AppendHeader(hdr: HeaderMap, last: nat, seg: nat, size: nat): HeaderMap {
    var hdr1 := if last != 0 && last in hdr then hdr[last := hdr[last].(next := seg)] else hdr;
    hdr1[seg := Header(size, 0, last, true)]
  }

  function LastAddr(bs: seq<Block>): nat {
    if bs == [] then 0 else bs[|bs| - 1].addr
  }

  lemma AppendAllHeaders(start: nat, bs: seq<Block>, hdr: HeaderMap, seg: nat, size: nat)
    requires Spaced(start, bs + [Block(seg, size, true)]) && Spaced(start, bs) && Headers(hdr, bs)
    ensures Headers(AppendHeader(hdr, LastAddr(bs), seg, size), bs + [Block(seg, size, true)])
  {
    var hdr', bs' := AppendHeader(hdr, LastAddr(bs), seg, size), bs + [Block(seg, size, true)];
    if bs != [] {
      assert HeaderOk(hdr, bs, |bs| - 1);
      FromStart(start, bs, |bs| - 1);
    }
    forall j: nat
      ensures HeaderOk(hdr', bs', j)
    {
      assert HeaderOk(hdr, bs, j);
      if j < |bs| {
        InOrder(start, bs', j, |bs|);
        AddrsDiffer(start, bs, j, |bs| - 1);
      }
    }
  }

  /** Following `next` from the first segment: null marks the end. */
  lemma NextSegment(start: nat, bs: seq<Block>, hdr: HeaderMap, i: nat)
    requires Spaced(start, bs) && Headers(hdr, bs) && i < |bs|
    ensures bs[i].addr in hdr && bs[i].addr != 0
    ensures var h := hdr[bs[i].addr];
            && h.size == bs[i].size && h.free == bs[i].free
            && (if h.next == 0 then i + 1 == |bs| else i + 1 < |bs| && h.next == bs[i + 1].addr)
  {
    assert HeaderOk(hdr, bs, i);
    FromStart(start, bs, i);
    if i + 1 < |bs| {
      FromStart(start, bs, i + 1);
    }
  }
}
