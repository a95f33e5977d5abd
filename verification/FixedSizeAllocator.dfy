/**
  The fixed-size slot allocator of src/lib/special_mem/fixed_size_allocator.c: an intrusive free
  list kept in slot order, and per page a word holding the previous page and the page's first
  free index.
 */
module FixedSizeAllocator {
  import opened Arithmetic
  import opened Common

  const NO_INDEX := 0xFFF // FREE_IND_MASK
  const LINK_AT := PAGE_LEN - 8 // offset of a page's page-prev word

  type Words = map<nat, nat> // 64-bit words by address

  function Word(mem: Words, a: nat): nat {
    if a in mem then mem[a] else 0
  }

  /** Address and index packed into one word: `w & ~FREE_IND_MASK` and `w & FREE_IND_MASK`. */
  function HighPart(w: nat): (h: nat)
    ensures h <= w && h % PAGE_LEN == 0
  {
    w - w % PAGE_LEN
  }

  lemma PackedParts(h: nat, l: nat)
    requires h % PAGE_LEN == 0 && l < PAGE_LEN
    ensures HighPart(h + l) == h && (h + l) % PAGE_LEN == l
  {
  }

  // ---- slots in page-creation-then-index order ----

  function First(ipp: nat, p: nat): nat {
    if p == 0 then 0 else First(ipp, p - 1) + ipp
  }

  lemma {:induction false} FirstOrder(ipp: nat, p: nat, q: nat)
    ensures First(ipp, p + 1) == First(ipp, p) + ipp
    ensures p < q ==> First(ipp, p + 1) <= First(ipp, q)
    decreases q
  {
    if p + 1 < q {
      FirstOrder(ipp, p, q - 1);
    }
  }

  /** The page an index falls into. */
  lemma {:induction false} Locate(ipp: nat, n: nat, k: nat) returns (p: nat, i: nat)
    requires k < First(ipp, n)
    ensures p < n && i < ipp && k == First(ipp, p) + i
    decreases n
  {
    FirstOrder(ipp, n - 1, n);
    if k >= First(ipp, n - 1) {
      p, i := n - 1, k - First(ipp, n - 1);
    } else {
      p, i := Locate(ipp, n - 1, k);
    }
  }

  predicate Sizes(size: nat, ipp: nat) {
    8 <= size <= LINK_AT && ipp * size <= LINK_AT < ipp * size + size
  }

  /** ITEMS_PER_PAGE */
  lemma ItemsPerPage(size: nat)
    requires 8 <= size <= LINK_AT
    ensures Sizes(size, LINK_AT / size)
  {
    DivMod(LINK_AT, size);
  }

  lemma SizeBounds(size: nat, ipp: nat, i: nat)
    requires Sizes(size, ipp) && i < ipp
    ensures i * size + size <= ipp * size <= LINK_AT && ipp <= LINK_AT / 8
  {
    SamePageApart(size, i, ipp);
    EightOrMore(size, ipp);
  }

  ghost predicate PagesApart(pages: seq<nat>) {
    && (forall p :: 0 <= p < |pages| ==> pages[p] != 0 && pages[p] % PAGE_LEN == 0)
    && (forall p, q :: 0 <= p < q < |pages| ==> pages[p] != pages[q])
  }

  ghost predicate SlotAt(size: nat, ipp: nat, pages: seq<nat>, slots: seq<nat>, p: nat, i: nat) {
    p < |pages| && First(ipp, p) + i < |slots| && slots[First(ipp, p) + i] == pages[p] + i * size
  }

  ghost predicate Layout(size: nat, ipp: nat, pages: seq<nat>, slots: seq<nat>) {
    && Sizes(size, ipp) && PagesApart(pages) && |slots| == First(ipp, |pages|)
    && (forall p: nat, i: nat {:trigger SlotAt(size, ipp, pages, slots, p, i)} :: p < |pages| && i < ipp ==>
          SlotAt(size, ipp, pages, slots, p, i))
  }

  /** A slot lies in its page, below the page-prev word. */
  lemma SlotInPage(size: nat, ipp: nat, pages: seq<nat>, slots: seq<nat>, p: nat, i: nat)
    requires Layout(size, ipp, pages, slots) && p < |pages| && i < ipp
    ensures SlotAt(size, ipp, pages, slots, p, i)
    ensures var a := pages[p] + i * size;
            HighPart(a) == pages[p] && a % PAGE_LEN == i * size &&
            a + size <= pages[p] + LINK_AT
  {
    SizeBounds(size, ipp, i);
    assert SlotAt(size, ipp, pages, slots, p, i);
    PackedParts(pages[p], i * size);
  }

  lemma AlignedApart(a: nat, b: nat)
    requires a % PAGE_LEN == 0 && b % PAGE_LEN == 0 && a < b
    ensures a + PAGE_LEN <= b
  {
  }

  lemma SamePageApart(size: nat, i: nat, j: nat)
    requires i < j
    ensures i * size + size <= j * size
  {
    MulOrder(i + 1, j, size);
    Distribute(i, 1, size);
  }

  /** Different slots share no byte. */
  lemma SlotsApart(size: nat, ipp: nat, pages: seq<nat>, slots: seq<nat>, j: nat, k: nat)
    requires Layout(size, ipp, pages, slots) && j < k < |slots|
    ensures slots[j] + size <= slots[k] || slots[k] + size <= slots[j]
  {
    var p, i := Locate(ipp, |pages|, j);
    var q, l := Locate(ipp, |pages|, k);
    SlotInPage(size, ipp, pages, slots, p, i);
    SlotInPage(size, ipp, pages, slots, q, l);
    if p == q {
      SamePageApart(size, i, l);
    } else if pages[p] < pages[q] {
      AlignedApart(pages[p], pages[q]);
    } else {
      AlignedApart(pages[q], pages[p]);
    }
  }

  /** No slot touches a page-prev word. */
  lemma SlotMissesLinks(size: nat, ipp: nat, pages: seq<nat>, slots: seq<nat>, k: nat, q: nat)
    requires Layout(size, ipp, pages, slots) && k < |slots| && q < |pages|
    ensures slots[k] != 0 && (slots[k] + size <= pages[q] + LINK_AT || pages[q] + PAGE_LEN <= slots[k])
  {
    var p, i := Locate(ipp, |pages|, k);
    SlotInPage(size, ipp, pages, slots, p, i);
    if pages[p] < pages[q] {
      AlignedApart(pages[p], pages[q]);
    } else if pages[q] < pages[p] {
      AlignedApart(pages[q], pages[p]);
    }
  }

  // ---- the free list as a function of the live set ----

  ghost predicate IsNext(live: set<nat>, k: nat, n: nat, r: nat) {
    k <= r <= n && (forall j :: k <= j < r ==> j in live) && (r < n ==> r !in live)
  }

  lemma {:induction false} NextExists(live: set<nat>, k: nat, n: nat)
    requires k <= n
    ensures exists r: nat :: IsNext(live, k, n, r)
    decreases n - k
  {
    if k < n && k in live {
      NextExists(live, k + 1, n);
      var r: nat :| IsNext(live, k + 1, n, r);
      assert IsNext(live, k, n, r);
    } else {
      assert IsNext(live, k, n, k);
    }
  }

  /** The least free index in [k, n), or n. */
  ghost function NextFree(live: set<nat>, k: nat, n: nat): (r: nat)
    requires k <= n
    ensures IsNext(live, k, n, r)
  {
    NextExists(live, k, n);
    var r: nat :| IsNext(live, k, n, r);
    r
  }

  ghost predicate IsPrev(live: set<nat>, k: nat, r: int) {
    -1 <= r < k && (forall j :: r < j < k ==> j in live) && (r >= 0 ==> r !in live)
  }

  lemma {:induction false} PrevExists(live: set<nat>, k: nat)
    ensures exists r: int :: IsPrev(live, k, r)
    decreases k
  {
    if k == 0 {
      assert IsPrev(live, k, -1);
    } else if k - 1 in live {
      PrevExists(live, k - 1);
      var r: int :| IsPrev(live, k - 1, r);
      assert IsPrev(live, k, r);
    } else {
      assert IsPrev(live, k, k - 1);
    }
  }

  /** The greatest free index below k, or -1. */
  ghost function PrevFree(live: set<nat>, k: nat): (r: int)
    ensures IsPrev(live, k, r)
  {
    PrevExists(live, k);
    var r: int :| IsPrev(live, k, r);
    r
  }

  ghost function At(slots: seq<nat>, r: int): nat {
    if 0 <= r < |slots| then slots[r] else 0
  }

  ghost predicate LinkOk(slots: seq<nat>, live: set<nat>, mem: Words, k: nat) {
    k < |slots| && k !in live ==> Word(mem, slots[k]) == At(slots, NextFree(live, k + 1, |slots|))
  }

  ghost predicate Linked(slots: seq<nat>, live: set<nat>, mem: Words) {
    forall k: nat {:trigger LinkOk(slots, live, mem, k)} :: LinkOk(slots, live, mem, k)
  }

  ghost function LeastIn(ipp: nat, live: set<nat>, p: nat): (i: nat)
    ensures i < ipp || i == NO_INDEX
  {
    FirstOrder(ipp, p, p);
    var r := NextFree(live, First(ipp, p), First(ipp, p + 1));
    if r < First(ipp, p + 1) then r - First(ipp, p) else NO_INDEX
  }

  ghost function PrevPage(pages: seq<nat>, p: nat): nat
    requires p <= |pages|
  {
    if p == 0 then 0 else pages[p - 1]
  }

  ghost predicate PackedOk(ipp: nat, pages: seq<nat>, live: set<nat>, mem: Words, p: nat) {
    p < |pages| ==> Word(mem, pages[p] + LINK_AT) == PrevPage(pages, p) + LeastIn(ipp, live, p)
  }

  ghost predicate Packed(ipp: nat, pages: seq<nat>, live: set<nat>, mem: Words) {
    forall p: nat {:trigger PackedOk(ipp, pages, live, mem, p)} :: PackedOk(ipp, pages, live, mem, p)
  }

  /** The free slots in order. */
  ghost function FreeSlots(slots: seq<nat>, live: set<nat>): seq<nat> {
    FreeFrom(slots, live, 0)
  }

  ghost function FreeFrom(slots: seq<nat>, live: set<nat>, k: nat): seq<nat>
    requires k <= |slots|
    decreases |slots| - k
  {
    if k == |slots| then [] else
    (if k in live then [] else [slots[k]]) + FreeFrom(slots, live, k + 1)
  }

  /** Following the links from `first` visits exactly `list` and then ends. */
  ghost predicate IsChain(mem: Words, first: nat, list: seq<nat>)
    decreases |list|
  {
    if list == [] then first == 0
    else first == list[0] != 0 && IsChain(mem, Word(mem, first), list[1..])
  }

  lemma {:induction false} ChainFrom(size: nat, ipp: nat, pages: seq<nat>, slots: seq<nat>, live: set<nat>, mem: Words,
                                     k: nat)
    requires Layout(size, ipp, pages, slots) && Linked(slots, live, mem) && k <= |slots|
    ensures IsChain(mem, At(slots, NextFree(live, k, |slots|)), FreeFrom(slots, live, k))
    decreases |slots| - k
  {
    if k < |slots| {
      ChainFrom(size, ipp, pages, slots, live, mem, k + 1);
      if k in live {
        SkipLive(live, k, k + 1, |slots|);
        assert FreeFrom(slots, live, k) == FreeFrom(slots, live, k + 1);
      } else {
        var p, i := Locate(ipp, |pages|, k);
        SlotInPage(size, ipp, pages, slots, p, i);
        assert LinkOk(slots, live, mem, k);
        assert FreeFrom(slots, live, k)[1..] == FreeFrom(slots, live, k + 1);
      }
    }
  }

  // ---- how the list answers to changes of the live set ----

  lemma NextSame(live: set<nat>, live': set<nat>, k: nat, n: nat)
    requires k <= n && forall j :: k <= j < n ==> (j in live <==> j in live')
    ensures NextFree(live, k, n) == NextFree(live', k, n)
  {
    var r, r' := NextFree(live, k, n), NextFree(live', k, n);
    assert r < r' ==> r in live';
    assert r' < r ==> r' in live;
  }

  lemma PrevSame(live: set<nat>, live': set<nat>, k: nat, n: nat)
    requires k <= n && forall j :: k <= j < n ==> (j in live <==> j in live')
    requires exists j :: k <= j < n && j !in live
    ensures PrevFree(live, n) == PrevFree(live', n)
  {
    var j :| k <= j < n && j !in live;
    var r, r' := PrevFree(live, n), PrevFree(live', n);
    assert r < j ==> j in live;
    assert r' < j ==> j in live';
    assert r < r' ==> r' in live;
    assert r' < r ==> r in live';
  }

  lemma LeastSame(ipp: nat, live: set<nat>, live': set<nat>, p: nat)
    requires forall j :: First(ipp, p) <= j < First(ipp, p + 1) ==> (j in live <==> j in live')
    ensures LeastIn(ipp, live, p) == LeastIn(ipp, live', p)
  {
    FirstOrder(ipp, p, p);
    NextSame(live, live', First(ipp, p), First(ipp, p + 1));
  }

  /** Pages other than the one holding index k keep their least free slot when only k changes. */
  lemma LeastElsewhere(ipp: nat, live: set<nat>, live': set<nat>, p: nat, i: nat, q: nat)
    requires i < ipp && q != p && forall j :: j != First(ipp, p) + i ==> (j in live <==> j in live')
    ensures LeastIn(ipp, live, q) == LeastIn(ipp, live', q)
  {
    FirstOrder(ipp, p, q);
    FirstOrder(ipp, q, p);
    LeastSame(ipp, live, live', q);
  }

  // Taking the first free slot.

  lemma TakeLinks(slots: seq<nat>, live: set<nat>, mem: Words, k: nat)
    requires Linked(slots, live, mem) && k == NextFree(live, 0, |slots|) < |slots|
    ensures Linked(slots, live + {k}, mem)
    ensures Word(mem, slots[k]) == At(slots, NextFree(live + {k}, 0, |slots|))
  {
    var n, live' := |slots|, live + {k};
    assert LinkOk(slots, live, mem, k);
    NextSame(live, live', k + 1, n);
    var r := NextFree(live', 0, n);
    assert r > k;
    forall j: nat
      ensures LinkOk(slots, live', mem, j)
    {
      if j < n && j !in live' {
        assert LinkOk(slots, live, mem, j) && j > k;
        NextSame(live, live', j + 1, n);
      }
    }
  }

  lemma TakeLast(live: set<nat>, n: nat, k: nat)
    requires k == NextFree(live, 0, n) < n
    ensures NextFree(live + {k}, 0, n) < n ==> PrevFree(live + {k}, n) == PrevFree(live, n)
    ensures NextFree(live + {k}, 0, n) == n ==> PrevFree(live + {k}, n) == -1
  {
    var r := NextFree(live + {k}, 0, n);
    var s := PrevFree(live + {k}, n);
    if r < n {
      assert r > k && r !in live;
      PrevSame(live, live + {k}, k + 1, n);
    }
  }

  /** After taking k, the first free slot k' decides the page's new index. */
  lemma TakeLeast(ipp: nat, live: set<nat>, n: nat, p: nat, i: nat, k: nat)
    requires First(ipp, p + 1) <= n && i < ipp && k == First(ipp, p) + i == NextFree(live, 0, n)
    ensures k < n && LeastIn(ipp, live, p) == i
    ensures var k' := NextFree(live + {k}, 0, n);
            LeastIn(ipp, live + {k}, p) == if k' < First(ipp, p + 1) then k' - First(ipp, p) else NO_INDEX
  {
    FirstOrder(ipp, p, p);
    var k' := NextFree(live + {k}, 0, n);
    var r := NextFree(live, First(ipp, p), First(ipp, p + 1));
    assert r == k by {
      assert r < k ==> r in live;
    }
    var r' := NextFree(live + {k}, First(ipp, p), First(ipp, p + 1));
    assert k' > k;
    assert r' < k' ==> r' == First(ipp, p + 1);
    assert k' < r' ==> k' in live + {k};
  }

  // Returning slot k.

  lemma GiveBackNext(live: set<nat>, n: nat, k: nat)
    requires k in live && k < n
    ensures var j, live' := PrevFree(live, k), live - {k};
            && NextFree(live', k + 1, n) == NextFree(live, j + 1, n)
            && NextFree(live', j + 1, n) == k
            && (j < 0 ==> NextFree(live', 0, n) == k)
            && (j >= 0 ==> NextFree(live', 0, n) == NextFree(live, 0, n) <= j)
  {
    var j, live' := PrevFree(live, k), live - {k};
    NextSame(live, live', k + 1, n);
    SkipLive(live, j + 1, k + 1, n);
    SkipLive(live', j + 1, k, n);
    if j >= 0 {
      FirstBefore(live, live', j, n);
    }
  }

  lemma FreeHere(live: set<nat>, k: nat, n: nat)
    requires k <= n && (k < n ==> k !in live)
    ensures NextFree(live, k, n) == k
  {
    var r := NextFree(live, k, n);
    assert k < r ==> k in live;
  }

  /** Live slots are passed over. */
  lemma SkipLive(live: set<nat>, i: nat, k: nat, n: nat)
    requires i <= k <= n && forall j :: i <= j < k ==> j in live
    ensures NextFree(live, i, n) == NextFree(live, k, n)
  {
    var a, b := NextFree(live, i, n), NextFree(live, k, n);
    assert a < b ==> a in live;
    assert b < a ==> b in live;
  }

  /** Up to a slot that is free in both, only what lies before it matters. */
  lemma FirstBefore(live: set<nat>, live': set<nat>, j: nat, n: nat)
    requires j < n && j !in live && j !in live' && forall i :: 0 <= i < j ==> (i in live <==> i in live')
    ensures NextFree(live, 0, n) == NextFree(live', 0, n) <= j
  {
    var d, e := NextFree(live, 0, n), NextFree(live', 0, n);
    assert j < d ==> j in live;
    assert j < e ==> j in live';
    assert d < e ==> d in live';
    assert e < d ==> e in live;
  }

  lemma GiveBackElsewhere(live: set<nat>, n: nat, k: nat, i: nat)
    requires k in live && k < n && i < n && i !in live && i != PrevFree(live, k)
    ensures NextFree(live - {k}, i + 1, n) == NextFree(live, i + 1, n)
  {
    var j := PrevFree(live, k);
    var a, b := NextFree(live - {k}, i + 1, n), NextFree(live, i + 1, n);
    if i > k {
      NextSame(live, live - {k}, i + 1, n);
    } else {
      assert i < j && j !in live;
      assert j < a ==> j in live - {k};
      assert j < b ==> j in live;
      assert a < b ==> a in live;
      assert b < a ==> b in live - {k};
    }
  }

  lemma GiveBackLast(live: set<nat>, n: nat, k: nat)
    requires k in live && k < n
    ensures PrevFree(live - {k}, n) == if PrevFree(live, n) == PrevFree(live, k) then k else PrevFree(live, n)
  {
    var j, l, l' := PrevFree(live, k), PrevFree(live, n), PrevFree(live - {k}, n);
    assert l' < k ==> k in live - {k};
    assert l >= j by {
      assert l < j ==> j in live;
    }
    if l == j {
      assert l' > k ==> l' in live;
    } else {
      assert l > k by {
        assert l < k ==> l in live;
      }
      assert l < l' ==> l' in live;
      assert l' < l ==> l in live - {k};
    }
  }

  lemma GiveBackLeast(ipp: nat, live: set<nat>, p: nat, i: nat)
    requires i < ipp <= NO_INDEX && First(ipp, p) + i in live
    ensures var old', k := LeastIn(ipp, live, p), First(ipp, p) + i;
            LeastIn(ipp, live - {k}, p) == if old' == NO_INDEX || i < old' then i else old'
  {
    FirstOrder(ipp, p, p);
    var k := First(ipp, p) + i;
    var r := NextFree(live, First(ipp, p), First(ipp, p + 1));
    var r' := NextFree(live - {k}, First(ipp, p), First(ipp, p + 1));
    assert k < r' ==> k in live - {k};
    if r < k {
      assert r < r' ==> r in live - {k};
      assert r' < r ==> r' in live;
    } else {
      assert r' < k ==> r' in live;
    }
  }

  // ---- words ----

  lemma LinkWrite(size: nat, ipp: nat, pages: seq<nat>, slots: seq<nat>, live: set<nat>, mem: Words, q: nat, w: nat)
    requires Layout(size, ipp, pages, slots) && q < |pages| && Linked(slots, live, mem)
    ensures Linked(slots, live, mem[pages[q] + LINK_AT := w])
  {
    var mem' := mem[pages[q] + LINK_AT := w];
    forall k: nat
      ensures LinkOk(slots, live, mem', k)
    {
      assert LinkOk(slots, live, mem, k);
      if k < |slots| {
        SlotMissesLinks(size, ipp, pages, slots, k, q);
      }
    }
  }

  lemma SlotWrite(size: nat, ipp: nat, pages: seq<nat>, slots: seq<nat>, live: set<nat>, mem: Words, k: nat, w: nat)
    requires Layout(size, ipp, pages, slots) && k < |slots| && Packed(ipp, pages, live, mem)
    ensures Packed(ipp, pages, live, mem[slots[k] := w])
  {
    var mem' := mem[slots[k] := w];
    forall q: nat
      ensures PackedOk(ipp, pages, live, mem', q)
    {
      assert PackedOk(ipp, pages, live, mem, q);
      if q < |pages| {
        SlotMissesLinks(size, ipp, pages, slots, k, q);
      }
    }
  }

  /** What _fsa_set_page_free_ind writes. */
  function WithIndex(w: nat, ind: nat): nat {
    HighPart(w) + ind % PAGE_LEN
  }

  lemma WithIndexIs(h: nat, l: nat, i: nat)
    requires h % PAGE_LEN == 0 && l < PAGE_LEN && i < PAGE_LEN
    ensures WithIndex(h + l, i) == h + i
  {
    PackedParts(h, l);
  }

  /** Only index i of page p has changed hands, and the page's index is brought up to date. */
  lemma PackedUpdate(ipp: nat, pages: seq<nat>, live: set<nat>, live': set<nat>, mem: Words, p: nat, i: nat)
    requires PagesApart(pages) && ipp <= NO_INDEX && Packed(ipp, pages, live, mem) && p < |pages| && i < ipp
    requires forall j :: j != First(ipp, p) + i ==> (j in live <==> j in live')
    ensures var a := pages[p] + LINK_AT;
            Packed(ipp, pages, live', mem[a := WithIndex(Word(mem, a), LeastIn(ipp, live', p))])
  {
    var a := pages[p] + LINK_AT;
    var w := WithIndex(Word(mem, a), LeastIn(ipp, live', p));
    assert PackedOk(ipp, pages, live, mem, p);
    WithIndexIs(PrevPage(pages, p), LeastIn(ipp, live, p), LeastIn(ipp, live', p));
    PackedStore(ipp, pages, live, live', mem, p, i, w);
  }

  lemma PackedStore(ipp: nat, pages: seq<nat>, live: set<nat>, live': set<nat>, mem: Words, p: nat, i: nat, w: nat)
    requires PagesApart(pages) && Packed(ipp, pages, live, mem) && p < |pages| && i < ipp
    requires (forall j :: j != First(ipp, p) + i ==> (j in live <==> j in live')) &&
             w == PrevPage(pages, p) + LeastIn(ipp, live', p)
    ensures Packed(ipp, pages, live', mem[pages[p] + LINK_AT := w])
  {
    var mem' := mem[pages[p] + LINK_AT := w];
    forall q: nat
      ensures PackedOk(ipp, pages, live', mem', q)
    {
      assert PackedOk(ipp, pages, live, mem, q);
      if q != p {
        LeastElsewhere(ipp, live, live', p, i, q);
      }
    }
  }

  /** The word already holds the right index. */
  lemma PackedKeep(ipp: nat, pages: seq<nat>, live: set<nat>, live': set<nat>, mem: Words, p: nat, i: nat)
    requires Packed(ipp, pages, live, mem) && p < |pages| && i < ipp && LeastIn(ipp, live', p) == LeastIn(ipp, live, p)
    requires forall j :: j != First(ipp, p) + i ==> (j in live <==> j in live')
    ensures Packed(ipp, pages, live', mem)
  {
    forall q: nat
      ensures PackedOk(ipp, pages, live', mem, q)
    {
      assert PackedOk(ipp, pages, live, mem, q);
      if q != p {
        LeastElsewhere(ipp, live, live', p, i, q);
      }
    }
  }

  function IndexInPage(size: nat, ipp: nat, page: nat, block: nat): nat
    requires size > 0
  {
    if block == 0 || block < page || block >= page + ipp * size then NO_INDEX
    else
      var res := (block - page) / size;
      if res >= ipp then NO_INDEX else res
  }

  lemma IndexOfSlot(size: nat, ipp: nat, pages: seq<nat>, slots: seq<nat>, p: nat, i: nat)
    requires Layout(size, ipp, pages, slots) && p < |pages| && i < ipp
    ensures SlotAt(size, ipp, pages, slots, p, i) && ipp <= LINK_AT / 8
    ensures slots[First(ipp, p) + i] != 0 && HighPart(slots[First(ipp, p) + i]) == pages[p]
    ensures IndexInPage(size, ipp, pages[p], slots[First(ipp, p) + i]) == i
  {
    SlotInPage(size, ipp, pages, slots, p, i);
    SizeBounds(size, ipp, i);
    MulDiv(i, size);
  }

  /** Which page a slot lies in can be read off its address. */
  lemma InSamePage(size: nat, ipp: nat, pages: seq<nat>, slots: seq<nat>, p: nat, k: nat)
    requires Layout(size, ipp, pages, slots) && p < |pages| && k < |slots|
    ensures HighPart(slots[k]) == pages[p] <==> First(ipp, p) <= k < First(ipp, p + 1)
  {
    var q, l := Locate(ipp, |pages|, k);
    SlotInPage(size, ipp, pages, slots, q, l);
    FirstOrder(ipp, p, q);
    FirstOrder(ipp, q, p);
  }

  /** The index fsa_alloc computes for the page it took slot k from. */
  lemma TakeIndex(size: nat, ipp: nat, pages: seq<nat>, slots: seq<nat>, live: set<nat>, p: nat, i: nat, k: nat)
    requires Layout(size, ipp, pages, slots) && p < |pages| && i < ipp
    requires k == First(ipp, p) + i == NextFree(live, 0, |slots|) < |slots|
    ensures var f := At(slots, NextFree(live + {k}, 0, |slots|));
            LeastIn(ipp, live + {k}, p) ==
            if f != 0 && HighPart(f) == pages[p] then IndexInPage(size, ipp, pages[p], f) else NO_INDEX
  {
    FirstOrder(ipp, p, |pages|);
    TakeLeast(ipp, live, |slots|, p, i, k);
    var k' := NextFree(live + {k}, 0, |slots|);
    if k' < |slots| {
      InSamePage(size, ipp, pages, slots, p, k');
      if HighPart(slots[k']) == pages[p] {
        FirstOrder(ipp, p, p);
        IndexOfSlot(size, ipp, pages, slots, p, k' - First(ipp, p));
      } else {
        assert k' >= First(ipp, p + 1);
      }
    }
  }

  /** All that the allocator's words must satisfy: everything but the pages is determined by the live set. */
  ghost predicate Consistent(size: nat, ipp: nat, pages: seq<nat>, slots: seq<nat>, live: set<nat>, mem: Words,
                             first: nat, last: nat) {
    && Layout(size, ipp, pages, slots) && (forall k :: k in live ==> k < |slots|)
    && Linked(slots, live, mem) && Packed(ipp, pages, live, mem)
    && first == At(slots, NextFree(live, 0, |slots|)) && last == At(slots, PrevFree(live, |slots|))
  }

  function TakenIndex(size: nat, ipp: nat, page: nat, first: nat): nat
    requires size > 0
  {
    if first != 0 && HighPart(first) == page then IndexInPage(size, ipp, page, first) else NO_INDEX
  }

  lemma FirstIsSlot(size: nat, ipp: nat, pages: seq<nat>, slots: seq<nat>, live: set<nat>,
                    first: nat) returns (k: nat, p: nat, i: nat)
    requires Layout(size, ipp, pages, slots) && first == At(slots, NextFree(live, 0, |slots|)) != 0
    ensures k == NextFree(live, 0, |slots|) < |slots| && first == slots[k] && p < |pages| && i < ipp <= LINK_AT / 8
    ensures k == First(ipp, p) + i && HighPart(first) == pages[p]
  {
    k := NextFree(live, 0, |slots|);
    p, i := Locate(ipp, |pages|, k);
    IndexOfSlot(size, ipp, pages, slots, p, i);
  }

  lemma Taken(size: nat, ipp: nat, pages: seq<nat>, slots: seq<nat>, live: set<nat>, mem: Words, first: nat, last: nat)
    requires Consistent(size, ipp, pages, slots, live, mem, first, last) && first != 0
    ensures var k, first', a := NextFree(live, 0, |slots|), Word(mem, first), HighPart(first) + LINK_AT;
            && k < |slots| && first == slots[k]
            && Consistent(size, ipp, pages, slots, live + {k},
                          mem[a := WithIndex(Word(mem, a), TakenIndex(size, ipp, HighPart(first), first'))],
                          first', if first' == 0 then 0 else last)
  {
    var k, p, i := FirstIsSlot(size, ipp, pages, slots, live, first);
    TakeLinks(slots, live, mem, k);
    TakeLast(live, |slots|, k);
    TakeIndex(size, ipp, pages, slots, live, p, i, k);
    TakeEnd(size, ipp, pages, slots, live, mem, k);
    var a := pages[p] + LINK_AT;
    PackedUpdate(ipp, pages, live, live + {k}, mem, p, i);
    LinkWrite(size, ipp, pages, slots, live + {k}, mem, p, WithIndex(Word(mem, a), LeastIn(ipp, live + {k}, p)));
  }

  /** The next link is null exactly when the last free slot was taken. */
  lemma TakeEnd(size: nat, ipp: nat, pages: seq<nat>, slots: seq<nat>, live: set<nat>, mem: Words, k: nat)
    requires Layout(size, ipp, pages, slots) && Linked(slots, live, mem) && k == NextFree(live, 0, |slots|) < |slots|
    ensures Word(mem, slots[k]) == 0 <==> NextFree(live + {k}, 0, |slots|) == |slots|
  {
    TakeLinks(slots, live, mem, k);
    var r := NextFree(live + {k}, 0, |slots|);
    if r < |slots| {
      var q, l := Locate(ipp, |pages|, r);
      IndexOfSlot(size, ipp, pages, slots, q, l);
    }
  }

  function Relinked(mem: Words, block: nat, prev: nat, first: nat): Words {
    if prev != 0 then mem[block := Word(mem, prev)][prev := block] else mem[block := first]
  }

  lemma SlotNotNull(size: nat, ipp: nat, pages: seq<nat>, slots: seq<nat>, k: nat)
    requires Layout(size, ipp, pages, slots) && k < |slots|
    ensures slots[k] != 0
  {
    var p, i := Locate(ipp, |pages|, k);
    SlotInPage(size, ipp, pages, slots, p, i);
  }

  lemma SlotsDiffer(size: nat, ipp: nat, pages: seq<nat>, slots: seq<nat>, j: nat, k: nat)
    requires Layout(size, ipp, pages, slots) && j < |slots| && k < |slots|
    ensures slots[j] == slots[k] <==> j == k
  {
    if j < k {
      SlotsApart(size, ipp, pages, slots, j, k);
    } else if k < j {
      SlotsApart(size, ipp, pages, slots, k, j);
    }
  }

  lemma GiveBackLink(size: nat, ipp: nat, pages: seq<nat>, slots: seq<nat>, live: set<nat>, mem: Words, first: nat,
                     k: nat, i: nat)
    requires Layout(size, ipp, pages, slots) && Linked(slots, live, mem) && k in live && k < |slots|
    requires first == At(slots, NextFree(live, 0, |slots|))
    ensures LinkOk(slots, live - {k}, Relinked(mem, slots[k], At(slots, PrevFree(live, k)), first), i)
  {
    var j := PrevFree(live, k);
    GiveBackNext(live, |slots|, k);
    if j >= 0 {
      SlotNotNull(size, ipp, pages, slots, j);
      SlotsDiffer(size, ipp, pages, slots, j, k);
      assert LinkOk(slots, live, mem, j);
    }
    if i < |slots| && i !in live - {k} && i != k && i != j {
      assert LinkOk(slots, live, mem, i);
      SlotsDiffer(size, ipp, pages, slots, i, k);
      if j >= 0 {
        SlotsDiffer(size, ipp, pages, slots, i, j);
      }
      GiveBackElsewhere(live, |slots|, k, i);
    }
  }

  lemma GiveBackLinks(size: nat, ipp: nat, pages: seq<nat>, slots: seq<nat>, live: set<nat>, mem: Words, first: nat,
                      k: nat)
    requires Layout(size, ipp, pages, slots) && Linked(slots, live, mem) && k in live && k < |slots|
    requires first == At(slots, NextFree(live, 0, |slots|))
    ensures Linked(slots, live - {k}, Relinked(mem, slots[k], At(slots, PrevFree(live, k)), first))
  {
    forall i: nat
      ensures LinkOk(slots, live - {k}, Relinked(mem, slots[k], At(slots, PrevFree(live, k)), first), i)
    {
      GiveBackLink(size, ipp, pages, slots, live, mem, first, k, i);
    }
  }

  lemma GiveBackPacked(size: nat, ipp: nat, pages: seq<nat>, slots: seq<nat>, live: set<nat>, mem: Words, first: nat,
                       k: nat)
    requires Layout(size, ipp, pages, slots) && Packed(ipp, pages, live, mem) && k < |slots|
    ensures Packed(ipp, pages, live, Relinked(mem, slots[k], At(slots, PrevFree(live, k)), first))
  {
    var j := PrevFree(live, k);
    if j >= 0 {
      SlotNotNull(size, ipp, pages, slots, j);
      SlotWrite(size, ipp, pages, slots, live, mem, k, Word(mem, slots[j]));
      SlotWrite(size, ipp, pages, slots, live, mem[slots[k] := Word(mem, slots[j])], j, slots[k]);
    } else {
      SlotWrite(size, ipp, pages, slots, live, mem, k, first);
    }
  }

  /** The page-prev word after freeing index i of its page. */
  function FreedWord(w: nat, i: nat): nat {
    if w % PAGE_LEN == NO_INDEX || i < w % PAGE_LEN then WithIndex(w, i) else w
  }

  lemma GiveBackIndex(size: nat, ipp: nat, pages: seq<nat>, slots: seq<nat>, live: set<nat>, mem: Words, p: nat, i: nat)
    requires Layout(size, ipp, pages, slots) && Packed(ipp, pages, live, mem) && p < |pages| && i < ipp
    requires First(ipp, p) + i in live
    ensures var a := pages[p] + LINK_AT;
            Packed(ipp, pages, live - {First(ipp, p) + i}, mem[a := FreedWord(Word(mem, a), i)])
  {
    var a, k := pages[p] + LINK_AT, First(ipp, p) + i;
    SizeBounds(size, ipp, i);
    GiveBackLeast(ipp, live, p, i);
    assert PackedOk(ipp, pages, live, mem, p);
    PackedParts(PrevPage(pages, p), LeastIn(ipp, live, p));
    if Word(mem, a) % PAGE_LEN == NO_INDEX || i < Word(mem, a) % PAGE_LEN {
      PackedUpdate(ipp, pages, live, live - {k}, mem, p, i);
    } else {
      PackedKeep(ipp, pages, live, live - {k}, mem, p, i);
      SameWords(ipp, pages, live - {k}, mem, mem[a := Word(mem, a)]);
    }
  }

  lemma SameWords(ipp: nat, pages: seq<nat>, live: set<nat>, mem: Words, mem': Words)
    requires Packed(ipp, pages, live, mem) && forall a :: Word(mem', a) == Word(mem, a)
    ensures Packed(ipp, pages, live, mem')
  {
    forall q: nat
      ensures PackedOk(ipp, pages, live, mem', q)
    {
      assert PackedOk(ipp, pages, live, mem, q);
    }
  }

  lemma GiveBackEnds(size: nat, ipp: nat, pages: seq<nat>, slots: seq<nat>, live: set<nat>, k: nat)
    requires Layout(size, ipp, pages, slots) && k in live && k < |slots|
    ensures var n, prev, live' := |slots|, At(slots, PrevFree(live, k)), live - {k};
            var first, last := At(slots, NextFree(live, 0, n)), At(slots, PrevFree(live, n));
            && At(slots, NextFree(live', 0, n)) == (if prev != 0 then first else slots[k])
            && At(slots, PrevFree(live', n)) == (if prev == last then slots[k] else last)
  {
    var j, l := PrevFree(live, k), PrevFree(live, |slots|);
    GiveBackNext(live, |slots|, k);
    GiveBackLast(live, |slots|, k);
    if j >= 0 {
      SlotNotNull(size, ipp, pages, slots, j);
    }
    if l >= 0 {
      SlotNotNull(size, ipp, pages, slots, l);
      if j >= 0 {
        SlotsDiffer(size, ipp, pages, slots, j, l);
      }
    }
  }

  lemma GivenBack(size: nat, ipp: nat, pages: seq<nat>, slots: seq<nat>, live: set<nat>, mem: Words, first: nat,
                  last: nat,
                  p: nat, i: nat, k: nat, prev: nat, mem': Words)
    requires Consistent(size, ipp, pages, slots, live, mem, first, last) && p < |pages| && i < ipp
    requires k == First(ipp, p) + i && k in live
    requires prev == At(slots, PrevFree(live, k)) && mem' == Relinked(mem, slots[k], prev, first)
    ensures var a := pages[p] + LINK_AT;
            Consistent(size, ipp, pages, slots, live - {k}, mem'[a := FreedWord(Word(mem', a), i)],
                       if prev != 0 then first else slots[k], if prev == last then slots[k] else last)
  {
    var a := pages[p] + LINK_AT;
    GiveBackLinks(size, ipp, pages, slots, live, mem, first, k);
    LinkWrite(size, ipp, pages, slots, live - {k}, mem', p, FreedWord(Word(mem', a), i));
    GiveBackPacked(size, ipp, pages, slots, live, mem, first, k);
    GiveBackIndex(size, ipp, pages, slots, live, mem', p, i);
    GiveBackEnds(size, ipp, pages, slots, live, k);
  }

  // Adding a page.

  ghost predicate NewSlots(size: nat, ipp: nat, page: nat, new': seq<nat>) {
    |new'| == ipp && forall i :: 0 <= i < ipp ==> new'[i] == page + i * size
  }

  ghost function SlotsOf(size: nat, ipp: nat, page: nat): (s: seq<nat>)
    ensures NewSlots(size, ipp, page, s)
  {
    if ipp == 0 then [] else SlotsOf(size, ipp - 1, page) + [page + (ipp - 1) * size]
  }

  /** No two link words, of eight bytes each, share a byte. */
  ghost predicate LinksApart(slots: seq<nat>) {
    forall i, j :: 0 <= i < j < |slots| ==> slots[i] + 8 <= slots[j]
  }

  /** Chaining the slots of a page is possible exactly for items of eight bytes or more. */
  lemma LinksApartIff(size: nat, page: nat)
    requires 0 < size <= LINK_AT
    ensures LinksApart(SlotsOf(size, LINK_AT / size, page)) <==> size >= 8
  {
    var slots := SlotsOf(size, LINK_AT / size, page);
    DivMod(LINK_AT, size);
    if size >= 8 {
      forall i, j | 0 <= i < j < |slots|
        ensures slots[i] + 8 <= slots[j]
      {
        MulOrder(i + 1, j, size);
        Distribute(i, 1, size);
      }
    } else {
      assert LINK_AT / size >= 2 by {
        if LINK_AT / size < 2 {
          MulOrder(LINK_AT / size, 1, size);
        }
      }
      assert slots[1] == page + size && slots[0] == page;
    }
  }

  ghost predicate FreshPage(pages: seq<nat>, page: nat) {
    page != 0 && page % PAGE_LEN == 0 && forall q :: 0 <= q < |pages| ==> pages[q] != page
  }

  /** _fsa_setup_page has chained the new slots and written nowhere else. */
  ghost predicate ChainedUp(mem: Words, mem': Words, new': seq<nat>, count: nat) {
    && (forall i {:trigger Word(mem', new'[i])} :: 0 <= i < |new'| && i + 1 < count ==>
          Word(mem', new'[i]) == (if i + 1 < |new'| then new'[i + 1] else 0))
    && (forall a: nat :: (forall i :: 0 <= i < |new'| ==> a != new'[i]) ==> Word(mem', a) == Word(mem, a))
  }

  lemma EightOrMore(size: nat, ipp: nat)
    requires size >= 8
    ensures 8 * ipp <= ipp * size
  {
    MulOrder(8, size, ipp);
  }

  lemma HasItems(size: nat, ipp: nat)
    requires Sizes(size, ipp)
    ensures 1 <= ipp <= LINK_AT / 8
  {
    EightOrMore(size, ipp);
    if ipp == 0 {
      Distribute(0, 0, size);
    }
  }

  lemma LayoutGrows(size: nat, ipp: nat, pages: seq<nat>, slots: seq<nat>, page: nat, new': seq<nat>)
    requires Layout(size, ipp, pages, slots) && FreshPage(pages, page) && NewSlots(size, ipp, page, new')
    ensures Layout(size, ipp, pages + [page], slots + new')
  {
    var pages', slots' := pages + [page], slots + new';
    FirstOrder(ipp, |pages|, |pages|);
    forall p: nat, i: nat | p < |pages'| && i < ipp
      ensures SlotAt(size, ipp, pages', slots', p, i)
    {
      if p < |pages| {
        assert SlotAt(size, ipp, pages, slots, p, i);
      }
    }
  }

  lemma NextGrows(live: set<nat>, k: nat, n: nat, m: nat)
    requires k <= n < m && forall j :: n <= j < m ==> j !in live
    ensures NextFree(live, k, m) == NextFree(live, k, n)
  {
    var r, r' := NextFree(live, k, n), NextFree(live, k, m);
    assert r < r' ==> r in live;
    assert r' < r ==> r' in live;
  }

  /** A new slot is none of the old words. */
  lemma NewSlotsElsewhere(size: nat, ipp: nat, pages: seq<nat>, slots: seq<nat>, page: nat, new': seq<nat>, k: nat,
                          q: nat)
    requires Layout(size, ipp, pages, slots) && FreshPage(pages, page) && NewSlots(size, ipp, page, new')
    ensures k < |slots| ==> slots[k] != page + LINK_AT && forall i :: 0 <= i < ipp ==> slots[k] != new'[i]
    ensures forall i :: 0 <= i < ipp ==> page + LINK_AT != new'[i]
    ensures q < |pages| ==>
              && pages[q] + LINK_AT != page + LINK_AT
              && forall i :: 0 <= i < ipp ==> pages[q] + LINK_AT != new'[i]
  {
    var pages', slots' := pages + [page], slots + new';
    LayoutGrows(size, ipp, pages, slots, page, new');
    assert pages'[|pages|] == page;
    if k < |slots| {
      SlotMissesLinks(size, ipp, pages', slots', k, |pages|);
    }
    forall i | 0 <= i < ipp
      ensures page + LINK_AT != new'[i] && (k < |slots| ==> slots[k] != new'[i]) &&
              (q < |pages| ==> pages[q] + LINK_AT != new'[i])
    {
      assert slots'[|slots| + i] == new'[i];
      SlotMissesLinks(size, ipp, pages', slots', |slots| + i, |pages|);
      if k < |slots| {
        SlotsDiffer(size, ipp, pages', slots', k, |slots| + i);
      }
      if q < |pages| {
        SlotMissesLinks(size, ipp, pages', slots', |slots| + i, q);
        assert pages'[q] == pages[q];
      }
    }
  }

  /** The words after _fsa_add_page. */
  function Extended(mem: Words, page: nat, lastPage: nat, last: nat): Words {
    var a := page + LINK_AT;
    var indexed := mem[a := WithIndex(Word(mem, a), 0)];
    var linked := indexed[a := HighPart(lastPage) + Word(indexed, a) % PAGE_LEN];
    if last != 0 then linked[last := page] else linked
  }

  lemma ExtendedAt(mem: Words, page: nat, lastPage: nat, last: nat, a: nat)
    requires lastPage % PAGE_LEN == 0
    ensures Word(Extended(mem, page, lastPage, last), a) ==
              if last != 0 && a == last then page else if a == page + LINK_AT then lastPage else Word(mem, a)
  {
  }

  /** The end of the list is the slot with no free one after it. */
  lemma LastLink(live: set<nat>, k: nat, n: nat)
    requires k < n && k !in live
    ensures 0 <= PrevFree(live, n) && (NextFree(live, k + 1, n) == n <==> PrevFree(live, n) == k)
  {
    var r, l := NextFree(live, k + 1, n), PrevFree(live, n);
    assert l < k ==> k in live;
    assert r == n && k < l ==> l in live;
    assert r < n && l == k ==> r in live;
  }

  lemma OldLink(size: nat, ipp: nat, pages: seq<nat>, slots: seq<nat>, live: set<nat>, mem: Words, mem': Words,
                page: nat, new': seq<nat>, lastPage: nat, k: nat)
    requires Layout(size, ipp, pages, slots) && (forall k :: k in live ==> k < |slots|) && Linked(slots, live, mem)
    requires FreshPage(pages, page) && NewSlots(size, ipp, page, new') && ChainedUp(mem, mem', new', ipp + 1) &&
             lastPage % PAGE_LEN == 0
    requires k < |slots| && k !in live
    ensures LinkOk(slots + new', live, Extended(mem', page, lastPage, At(slots, PrevFree(live, |slots|))), k)
  {
    var n, slots', l := |slots|, slots + new', PrevFree(live, |slots|);
    LastLink(live, k, n);
    HasItems(size, ipp);
    NextGrows(live, k + 1, n, n + ipp);
    ExtendedAt(mem', page, lastPage, slots[l], slots[k]);
    NewSlotsElsewhere(size, ipp, pages, slots, page, new', k, 0);
    assert LinkOk(slots, live, mem, k);
    SlotNotNull(size, ipp, pages, slots, l);
    SlotsDiffer(size, ipp, pages, slots, k, l);
    FirstNew(size, ipp, page, new');
  }

  lemma FirstNew(size: nat, ipp: nat, page: nat, new': seq<nat>)
    requires NewSlots(size, ipp, page, new') && 0 < ipp
    ensures new'[0] == page
  {
    assert 0 * size == 0;
  }

  lemma NewLink(size: nat, ipp: nat, pages: seq<nat>, slots: seq<nat>, live: set<nat>, mem: Words, mem': Words,
                page: nat, new': seq<nat>, lastPage: nat, k: nat)
    requires Layout(size, ipp, pages, slots) && (forall k :: k in live ==> k < |slots|)
    requires FreshPage(pages, page) && NewSlots(size, ipp, page, new') && ChainedUp(mem, mem', new', ipp + 1) &&
             lastPage % PAGE_LEN == 0
    requires |slots| <= k < |slots| + ipp
    ensures LinkOk(slots + new', live, Extended(mem', page, lastPage, At(slots, PrevFree(live, |slots|))), k)
  {
    var n, slots', l := |slots|, slots + new', PrevFree(live, |slots|);
    ExtendedAt(mem', page, lastPage, At(slots, l), slots'[k]);
    if l >= 0 {
      SlotNotNull(size, ipp, pages, slots, l);
      NewSlotsElsewhere(size, ipp, pages, slots, page, new', l, 0);
    }
    NewSlotsElsewhere(size, ipp, pages, slots, page, new', n, 0);
    FreeHere(live, k + 1, n + ipp);
    assert slots'[k] == new'[k - n];
  }

  lemma LinksGrow(size: nat, ipp: nat, pages: seq<nat>, slots: seq<nat>, live: set<nat>, mem: Words, mem': Words,
                  page: nat, new': seq<nat>, lastPage: nat)
    requires Layout(size, ipp, pages, slots) && (forall k :: k in live ==> k < |slots|) && Linked(slots, live, mem)
    requires FreshPage(pages, page) && NewSlots(size, ipp, page, new') && ChainedUp(mem, mem', new', ipp + 1) &&
             lastPage % PAGE_LEN == 0
    ensures Linked(slots + new', live, Extended(mem', page, lastPage, At(slots, PrevFree(live, |slots|))))
  {
    var slots', words := slots + new', Extended(mem', page, lastPage, At(slots, PrevFree(live, |slots|)));
    forall k: nat
      ensures LinkOk(slots', live, words, k)
    {
      if k < |slots| && k !in live {
        OldLink(size, ipp, pages, slots, live, mem, mem', page, new', lastPage, k);
      } else if |slots| <= k < |slots'| {
        NewLink(size, ipp, pages, slots, live, mem, mem', page, new', lastPage, k);
      }
    }
  }

  lemma PackedGrows(size: nat, ipp: nat, pages: seq<nat>, slots: seq<nat>, live: set<nat>, mem: Words, mem': Words,
                    page: nat, new': seq<nat>)
    requires Layout(size, ipp, pages, slots) && (forall k :: k in live ==> k < |slots|) && Packed(ipp, pages, live, mem)
    requires FreshPage(pages, page) && NewSlots(size, ipp, page, new') && ChainedUp(mem, mem', new', ipp + 1)
    ensures Packed(ipp, pages + [page], live,
                   Extended(mem', page, PrevPage(pages, |pages|), At(slots, PrevFree(live, |slots|))))
  {
    var pages', lastPage, l := pages + [page], PrevPage(pages, |pages|), PrevFree(live, |slots|);
    var words := Extended(mem', page, lastPage, At(slots, l));
    forall q: nat
      ensures PackedOk(ipp, pages', live, words, q)
    {
      if q < |pages'| {
        var a := pages'[q] + LINK_AT;
        ExtendedAt(mem', page, lastPage, At(slots, l), a);
        NewSlotsElsewhere(size, ipp, pages, slots, page, new', if l >= 0 then l else 0, q);
        if q < |pages| {
          assert PackedOk(ipp, pages, live, mem, q);
          if l >= 0 {
            SlotMissesLinks(size, ipp, pages, slots, l, q);
          }
        } else {
          HasItems(size, ipp);
          FirstOrder(ipp, q, q);
          FreeHere(live, First(ipp, q), First(ipp, q + 1));
        }
      }
    }
  }

  lemma PageAdded(size: nat, ipp: nat, pages: seq<nat>, slots: seq<nat>, live: set<nat>, mem: Words, first: nat,
                  last: nat,
                  mem': Words, page: nat, new': seq<nat>)
    requires Consistent(size, ipp, pages, slots, live, mem, first, last)
    requires FreshPage(pages, page) && NewSlots(size, ipp, page, new') && ChainedUp(mem, mem', new', ipp + 1)
    ensures 0 < ipp
    ensures Consistent(size, ipp, pages + [page], slots + new', live,
                       Extended(mem', page, PrevPage(pages, |pages|), last),
                       if last != 0 then first else page, new'[ipp - 1])
  {
    var n := |slots|;
    HasItems(size, ipp);
    FirstNew(size, ipp, page, new');
    LayoutGrows(size, ipp, pages, slots, page, new');
    LinksGrow(size, ipp, pages, slots, live, mem, mem', page, new', PrevPage(pages, |pages|));
    PackedGrows(size, ipp, pages, slots, live, mem, mem', page, new');
    NextGrows(live, 0, n, n + ipp);
    PrevIs(live, n + ipp, n + ipp - 1);
    var r, l := NextFree(live, 0, n), PrevFree(live, n);
    if l >= 0 {
      SlotNotNull(size, ipp, pages, slots, l);
      assert r == n ==> l in live;
    } else {
      assert r < n ==> r in live;
    }
  }

  // ---- what the clients keep in their blocks ----

  ghost predicate InBlock(size: nat, slots: seq<nat>, live: set<nat>, a: nat) {
    exists k :: k in live && k < |slots| && slots[k] <= a < slots[k] + size
  }

  /** No word of a live block differs. */
  ghost predicate ClientsKeep(size: nat, slots: seq<nat>, live: set<nat>, mem: Words, mem': Words) {
    forall a: nat {:trigger InBlock(size, slots, live, a)} :: InBlock(size, slots, live, a) ==>
      Word(mem', a) == Word(mem, a)
  }

  lemma FreeSlotIsNoBlock(size: nat, ipp: nat, pages: seq<nat>, slots: seq<nat>, live: set<nat>, j: nat)
    requires Layout(size, ipp, pages, slots) && j < |slots| && j !in live
    ensures !InBlock(size, slots, live, slots[j])
  {
    forall k | k in live && k < |slots|
      ensures !(slots[k] <= slots[j] < slots[k] + size)
    {
      SlotsApart(size, ipp, pages, slots, if j < k then j else k, if j < k then k else j);
    }
  }

  lemma LinkIsNoBlock(size: nat, ipp: nat, pages: seq<nat>, slots: seq<nat>, live: set<nat>, q: nat)
    requires Layout(size, ipp, pages, slots) && q < |pages|
    ensures !InBlock(size, slots, live, pages[q] + LINK_AT)
  {
    forall k | k in live && k < |slots|
      ensures !(slots[k] <= pages[q] + LINK_AT < slots[k] + size)
    {
      SlotMissesLinks(size, ipp, pages, slots, k, q);
    }
  }

  lemma TakingKeepsClients(size: nat, ipp: nat, pages: seq<nat>, slots: seq<nat>, live: set<nat>, mem: Words,
                           first: nat, w: nat)
    requires Layout(size, ipp, pages, slots) && first == At(slots, NextFree(live, 0, |slots|)) != 0
    ensures ClientsKeep(size, slots, live, mem, mem[HighPart(first) + LINK_AT := w])
  {
    var k, p, i := FirstIsSlot(size, ipp, pages, slots, live, first);
    LinkIsNoBlock(size, ipp, pages, slots, live, p);
  }

  lemma GivingBackKeepsClients(size: nat, ipp: nat, pages: seq<nat>, slots: seq<nat>, live: set<nat>, mem: Words,
                               first: nat,
                               p: nat, k: nat, w: nat)
    requires Layout(size, ipp, pages, slots) && p < |pages| && k in live && k < |slots|
    ensures ClientsKeep(size, slots, live - {k}, mem,
                        Relinked(mem, slots[k], At(slots, PrevFree(live, k)), first)[pages[p] + LINK_AT := w])
  {
    var j := PrevFree(live, k);
    FreeSlotIsNoBlock(size, ipp, pages, slots, live - {k}, k);
    if j >= 0 {
      FreeSlotIsNoBlock(size, ipp, pages, slots, live - {k}, j);
    }
    LinkIsNoBlock(size, ipp, pages, slots, live - {k}, p);
  }

  lemma AddingKeepsClients(size: nat, ipp: nat, pages: seq<nat>, slots: seq<nat>, live: set<nat>, mem: Words,
                           first: nat, last: nat,
                           mem': Words, page: nat, new': seq<nat>)
    requires Consistent(size, ipp, pages, slots, live, mem, first, last)
    requires FreshPage(pages, page) && NewSlots(size, ipp, page, new') && ChainedUp(mem, mem', new', ipp + 1)
    ensures ClientsKeep(size, slots + new', live, mem, Extended(mem', page, PrevPage(pages, |pages|), last))
  {
    var pages', slots', words := pages + [page], slots + new', Extended(mem', page, PrevPage(pages, |pages|), last);
    LayoutGrows(size, ipp, pages, slots, page, new');
    assert pages'[|pages|] == page;
    LinkIsNoBlock(size, ipp, pages', slots', live, |pages|);
    if last != 0 {
      assert slots'[PrevFree(live, |slots|)] == last;
      FreeSlotIsNoBlock(size, ipp, pages', slots', live, PrevFree(live, |slots|));
    }
    forall a: nat | InBlock(size, slots', live, a)
      ensures Word(words, a) == Word(mem, a)
    {
      ExtendedAt(mem', page, PrevPage(pages, |pages|), last, a);
      forall i | 0 <= i < |new'|
        ensures a != new'[i]
      {
        assert slots'[|slots| + i] == new'[i];
        FreeSlotIsNoBlock(size, ipp, pages', slots', live, |slots| + i);
      }
    }
  }

  class Allocator {
    const size: nat // item_size
    const ipp: nat // items_per_page
    var firstPage: nat
    var lastPage: nat
    var firstFree: nat
    var lastFree: nat
    var locked: bool
    var mem: Words
    ghost var pages: seq<nat> // in the order they were added
    ghost var slots: seq<nat> // every slot, page by page
    ghost var live: set<nat> // indices of the slots handed out

    ghost predicate Valid()
      reads this
    {
      && Consistent(size, ipp, pages, slots, live, mem, firstFree, lastFree)
      && firstPage == (if pages == [] then 0 else pages[0]) && lastPage == PrevPage(pages, |pages|)
    }

    constructor (itemSize: nat, words: Words)
      requires 8 <= itemSize <= LINK_AT
      ensures Valid() && !locked && size == itemSize && ipp == LINK_AT / itemSize && live == {} && slots == []
    {
      ItemsPerPage(itemSize);
      size, ipp := itemSize, LINK_AT / itemSize;
      firstPage, lastPage, firstFree, lastFree, locked, mem := 0, 0, 0, 0, false, words;
      pages, slots, live := [], [], {};
    }

    /** _fsa_setup_page: chains the slots of a page; returns the last one. */
    method SetupPage(page: nat, ghost new': seq<nat>) returns (last: nat)
      requires Sizes(size, ipp) && NewSlots(size, ipp, page, new') && page != 0
      modifies this`mem
      ensures ChainedUp(old(mem), mem, new', ipp + 1) && 0 < ipp && last == new'[ipp - 1]
    {
      HasItems(size, ipp);
      var upperBound := page + ipp * size;
      var prev, a := 0, page;
      ghost var i := 0;
      FirstNew(size, ipp, page, new');
      while a < upperBound
        invariant i <= ipp && a == (if i < ipp then new'[i] else upperBound) &&
                  prev == (if i == 0 then 0 else new'[i - 1]) && (prev == 0 <==> i == 0)
        invariant ChainedUp(old(mem), mem, new', i)
        decreases ipp - i
      {
        NextNew(size, ipp, page, new', i);
        NewApart(size, ipp, page, new');
        if prev != 0 {
          ChainStep(old(mem), mem, new', i, a);
          mem := mem[prev := a];
        }
        prev, a := a, a + size;
        i := i + 1;
      }
      if i < ipp {
        NextNew(size, ipp, page, new', i);
      }
      NewApart(size, ipp, page, new');
      ChainStep(old(mem), mem, new', i, 0);
      mem := mem[prev := 0];
      return prev;
    }

    /** _fsa_add_page, given the next free frame (null if there is none). */
    method AddPage(page: nat)
      requires Valid() && (page == 0 || FreshPage(pages, page))
      modifies this`mem, this`firstFree, this`lastFree, this`firstPage, this`lastPage, this`pages, this`slots
      ensures Valid()
      ensures if page == 0 then pages == old(pages) && slots == old(slots) && firstFree == old(firstFree)
              else pages == old(pages) + [page] && |slots| == |old(slots)| + ipp && ipp > 0 && old(slots) <= slots
      ensures ClientsKeep(size, slots, live, old(mem), mem)
    {
      if page == 0 {
        return;
      }
      ghost var new' := SlotsOf(size, ipp, page);
      ghost var words := mem;
      var last := SetupPage(page, new');
      PageAdded(size, ipp, pages, slots, live, words, firstFree, lastFree, mem, page, new');
      AddingKeepsClients(size, ipp, pages, slots, live, words, firstFree, lastFree, mem, page, new');
      var words' := Extended(mem, page, lastPage, lastFree);
      var first := if lastFree == 0 then page else firstFree;
      var firstPage' := if lastPage == 0 then page else firstPage;
      mem, firstFree, lastFree, firstPage, lastPage := words', first, last, firstPage', page;
      pages, slots := pages + [page], slots + new';
    }

    /**
      fsa_alloc, given the page that a new frame would provide.  The block is the first free slot; a
      page is added only when every slot is live, and without a frame the mutex stays held.
     */
    method Alloc(page: nat) returns (res: nat, ghost k: nat)
      requires Valid() && !locked && (page == 0 || FreshPage(pages, page))
      modifies this
      ensures Valid()
      ensures old(firstFree) != 0 ==> pages == old(pages) && slots == old(slots)
      ensures old(firstFree) == 0 && page != 0 ==> pages == old(pages) + [page]
      ensures res == 0 <==> locked
      ensures locked <==> old(firstFree) == 0 && page == 0
      ensures res == 0 ==> live == old(live) && pages == old(pages) && slots == old(slots)
      ensures res != 0 ==> k == NextFree(old(live), 0, |slots|) < |slots| && res == slots[k] && live == old(live) + {k}
      ensures ClientsKeep(size, slots, old(live), old(mem), mem)
    {
      k := 0;
      locked := true;
      if firstFree == 0 {
        AddPage(page);
        if page != 0 {
          SomeFree(size, ipp, pages, slots, live, |old(slots)|);
        }
        if firstFree == 0 {
          return 0, 0;
        }
      }
      NonNullFirst(size, ipp, pages, slots, live);
      res, k := TakeFirst();
      locked := false;
    }

    /** A client may write anything anywhere in a block it holds. */
    method ClientWrite(block: nat, o: nat, w: nat, ghost k: nat)
      requires Valid() && k in live && block == slots[k] && o < size
      modifies this`mem
      ensures Valid() && mem == old(mem)[block + o := w] && ClientsKeep(size, slots, live - {k}, old(mem), mem)
    {
      BlockWrite(size, ipp, pages, slots, live, mem, k, block + o, w);
      mem := mem[block + o := w];
    }

    /** The links visit exactly the slots that are not live, in page-creation-then-index order. */
    lemma FreeListIsUnallocatedSlots()
      requires Valid()
      ensures IsChain(mem, firstFree, FreeSlots(slots, live))
      ensures var free := FreeSlots(slots, live); lastFree == if free == [] then 0 else free[|free| - 1]
    {
      ChainFrom(size, ipp, pages, slots, live, mem, 0);
      FreeEnd(slots, live, 0);
    }

    /** Each page's packed word: the page added before it, and its least free slot. */
    lemma PackedWordOf(p: nat)
      requires Valid() && p < |pages|
      ensures var w := Word(mem, pages[p] + LINK_AT);
              HighPart(w) == PrevPage(pages, p) && IsLeast(ipp, live, p, w % PAGE_LEN)
    {
      assert PackedOk(ipp, pages, live, mem, p);
      HasItems(size, ipp);
      PackedParts(PrevPage(pages, p), LeastIn(ipp, live, p));
      LeastMeans(ipp, live, p);
    }

    /** Live blocks share no byte with each other or with any page-prev word. */
    lemma LiveBlocksApart(j: nat, k: nat, q: nat)
      requires Valid() && j in live && k in live && q < |pages|
      ensures j != k ==> slots[j] + size <= slots[k] || slots[k] + size <= slots[j]
      ensures slots[j] + size <= pages[q] + LINK_AT || pages[q] + LINK_AT + 8 <= slots[j]
    {
      if j < k {
        SlotsApart(size, ipp, pages, slots, j, k);
      } else if k < j {
        SlotsApart(size, ipp, pages, slots, k, j);
      }
      SlotMissesLinks(size, ipp, pages, slots, j, q);
    }

    /** The part of fsa_alloc that runs once the list is not empty. */
    method TakeFirst() returns (res: nat, ghost k: nat)
      requires Valid() && firstFree != 0
      modifies this`firstFree, this`lastFree, this`mem, this`live
      ensures Valid() && k == NextFree(old(live), 0, |slots|) < |slots| && res == slots[k] && live == old(live) + {k}
      ensures ClientsKeep(size, slots, old(live), old(mem), mem)
    {
      k := NextFree(live, 0, |slots|);
      Taken(size, ipp, pages, slots, live, mem, firstFree, lastFree);
      res := firstFree;
      firstFree := Word(mem, res);
      if firstFree == 0 {
        lastFree := 0;
      }
      var page := HighPart(res);
      var a := page + LINK_AT;
      TakingKeepsClients(size, ipp, pages, slots, live, mem, res,
                         WithIndex(Word(mem, a), TakenIndex(size, ipp, page, firstFree)));
      mem := mem[a := WithIndex(Word(mem, a), TakenIndex(size, ipp, page, firstFree))];
      live := live + {k};
    }

    /** The innermost loop of _fsa_find_free_predecessor: is slot c on the free list? */
    method OnFreeList(candidate: nat, ghost c: nat) returns (found: bool)
      requires Valid() && c < |slots| && candidate == slots[c]
      ensures found <==> c !in live
    {
      var cur := firstFree;
      ghost var r := NextFree(live, 0, |slots|);
      while cur != 0
        invariant r <= |slots| && cur == At(slots, r) && (r < |slots| ==> r !in live) && (c !in live ==> r <= c)
        decreases |slots| - r
      {
        if cur == candidate {
          SlotsDiffer(size, ipp, pages, slots, r, c);
          return true;
        }
        assert LinkOk(slots, live, mem, r);
        cur := Word(mem, cur);
        r := NextFree(live, r + 1, |slots|);
      }
      if c !in live {
        SlotNotNull(size, ipp, pages, slots, r);
      }
      return false;
    }

    /** The middle loop: the free slot of page p closest below position `start + 1`, if any. */
    method ScanPage(page: nat, start: int, ghost p: nat) returns (candidate: nat, ghost j: int)
      requires Valid() && p < |pages| && page == pages[p] && -1 <= start < ipp
      ensures var lo, hi := First(ipp, p), First(ipp, p) + start + 1;
              && (forall l :: j < l < hi ==> l >= lo ==> l in live)
              && lo - 1 <= j < hi
              && (if j < lo then candidate == 0 else j < |slots| && j !in live && candidate == slots[j] != 0)
    {
      var i := start;
      while i >= 0
        invariant -1 <= i <= start
        invariant forall l :: First(ipp, p) + i < l <= First(ipp, p) + start ==> l in live
      {
        IndexOfSlot(size, ipp, pages, slots, p, i);
        candidate := page + i * size;
        var found := OnFreeList(candidate, First(ipp, p) + i);
        if found {
          return candidate, First(ipp, p) + i;
        }
        i := i - 1;
      }
      return 0, First(ipp, p) - 1;
    }

    /** _fsa_find_free_predecessor: the free slot before position i of page p in list order, or null. */
    method FindFreePredecessor(page: nat, blockIndex: nat, ghost p: nat, ghost k: nat) returns (prev: nat)
      requires Valid() && p < |pages| && page == pages[p] && blockIndex < ipp && k == First(ipp, p) + blockIndex
      ensures prev == At(slots, PrevFree(live, k))
    {
      ghost var q: int, hi: int := p, k;
      var curPage := page;
      while curPage != 0
        invariant -1 <= q <= p && (if q >= 0 then curPage == pages[q] else curPage == 0 && hi == 0)
        invariant q >= 0 ==> hi == First(ipp, q) + (if q == p then blockIndex else ipp)
        invariant hi <= k && forall l :: hi <= l < k ==> l in live
        decreases q
      {
        var start := if curPage == page then blockIndex - 1 else ipp - 1;
        ghost var j;
        prev, j := ScanPage(curPage, start, q);
        if prev != 0 {
          PrevIs(live, k, j);
          return;
        }
        curPage := PageBefore(curPage, q);
        hi := First(ipp, q);
        q := q - 1;
      }
      PrevIs(live, k, -1);
      return 0;
    }

    method PageBefore(page: nat, ghost p: nat) returns (prev: nat)
      requires Valid() && p < |pages| && page == pages[p]
      ensures prev == PrevPage(pages, p)
    {
      assert PackedOk(ipp, pages, live, mem, p);
      SizeBounds(size, ipp, 0);
      PackedParts(PrevPage(pages, p), LeastIn(ipp, live, p));
      prev := HighPart(Word(mem, page + LINK_AT));
    }

    /** The part of fsa_free that links the block back in. */
    method LinkBack(block: nat, page: nat, blockIndex: nat, ghost p: nat, ghost k: nat)
      requires Valid() && p < |pages| && page == pages[p] && blockIndex < ipp && k == First(ipp, p) + blockIndex
      requires k in live && block == slots[k]
      modifies this`firstFree, this`lastFree, this`mem, this`live
      ensures Valid() && live == old(live) - {k} && ClientsKeep(size, slots, live, old(mem), mem)
    {
      var prev := FindFreePredecessor(page, blockIndex, p, k);
      var words := Relinked(mem, block, prev, firstFree);
      GivenBack(size, ipp, pages, slots, live, mem, firstFree, lastFree, p, blockIndex, k, prev, words);
      if prev == lastFree {
        lastFree := block;
      }
      if prev == 0 {
        firstFree := block;
      }
      var a := page + LINK_AT;
      GivingBackKeepsClients(size, ipp, pages, slots, live, old(mem), old(firstFree), p, k,
                             FreedWord(Word(words, a), blockIndex));
      mem := words[a := FreedWord(Word(words, a), blockIndex)];
      live := live - {k};
    }

    /** fsa_free of a live block; null and pointers outside every slot area are refused. */
    method Free(block: nat, ghost k: nat)
      requires Valid() && !locked
      requires Refused(size, ipp, block) || (k in live && block == slots[k])
      modifies this`firstFree, this`lastFree, this`mem, this`live
      ensures Valid() && !locked
      ensures live == if Refused(size, ipp, block) then old(live) else old(live) - {k}
      ensures ClientsKeep(size, slots, live, old(mem), mem)
    {
      if block == 0 {
        return;
      }
      FreeIndex(size, ipp, block);
      var page := HighPart(block);
      var blockIndex := IndexInPage(size, ipp, page, block);
      if blockIndex == NO_INDEX {
        return;
      }
      ghost var p, i := Locate(ipp, |pages|, k);
      IndexOfSlot(size, ipp, pages, slots, p, i);
      LinkBack(block, page, blockIndex, p, k);
    }
  }

  /** The order in which blocks came and went leaves no trace: only the set of live blocks matters. */
  lemma ListDependsOnLiveSetOnly(a: Allocator, b: Allocator, k: nat, p: nat)
    requires a.Valid() && b.Valid() && a.size == b.size && a.ipp == b.ipp && a.pages == b.pages && a.live == b.live
    ensures a.slots == b.slots && a.firstFree == b.firstFree && a.lastFree == b.lastFree
    ensures k < |a.slots| && k !in a.live ==> Word(a.mem, a.slots[k]) == Word(b.mem, b.slots[k])
    ensures p < |a.pages| ==> Word(a.mem, a.pages[p] + LINK_AT) == Word(b.mem, b.pages[p] + LINK_AT)
  {
    SlotsFromPages(a.size, a.ipp, a.pages, a.slots, b.slots);
    assert LinkOk(a.slots, a.live, a.mem, k) && LinkOk(b.slots, b.live, b.mem, k);
    assert PackedOk(a.ipp, a.pages, a.live, a.mem, p) && PackedOk(b.ipp, b.pages, b.live, b.mem, p);
  }

  lemma SlotsFromPages(size: nat, ipp: nat, pages: seq<nat>, s: seq<nat>, t: seq<nat>)
    requires Layout(size, ipp, pages, s) && Layout(size, ipp, pages, t)
    ensures s == t
  {
    forall k | 0 <= k < |s|
      ensures s[k] == t[k]
    {
      var p, i := Locate(ipp, |pages|, k);
      assert SlotAt(size, ipp, pages, s, p, i) && SlotAt(size, ipp, pages, t, p, i);
    }
  }

  lemma {:induction false} FreeEnd(slots: seq<nat>, live: set<nat>, k: nat)
    requires k <= |slots|
    ensures var f, l := FreeFrom(slots, live, k), PrevFree(live, |slots|);
            if f == [] then l < k else k <= l < |slots| && f[|f| - 1] == slots[l]
    decreases |slots| - k
  {
    if k < |slots| {
      FreeEnd(slots, live, k + 1);
      var f, g, l := FreeFrom(slots, live, k), FreeFrom(slots, live, k + 1), PrevFree(live, |slots|);
      if g != [] {
        assert f[|f| - 1] == g[|g| - 1];
      } else if k !in live {
        assert l < k ==> k in live;
      }
    }
  }

  /** i is the first free position of page p, or NO_INDEX if every slot of it is live. */
  ghost predicate IsLeast(ipp: nat, live: set<nat>, p: nat, i: nat) {
    var lo, hi := First(ipp, p), First(ipp, p + 1);
    && (i == NO_INDEX <==> forall k :: lo <= k < hi ==> k in live)
    && (i != NO_INDEX ==> i < ipp && lo + i !in live && forall k :: lo <= k < lo + i ==> k in live)
  }

  lemma LeastMeans(ipp: nat, live: set<nat>, p: nat)
    requires ipp <= NO_INDEX
    ensures IsLeast(ipp, live, p, LeastIn(ipp, live, p))
  {
    FirstOrder(ipp, p, p);
    var r := NextFree(live, First(ipp, p), First(ipp, p + 1));
  }

  lemma ChainStep(mem0: Words, mem: Words, new': seq<nat>, i: nat, w: nat)
    requires 0 < i <= |new'| && ChainedUp(mem0, mem, new', i) && w == (if i < |new'| then new'[i] else 0)
    requires forall i, j :: 0 <= i < j < |new'| ==> new'[i] != new'[j]
    ensures ChainedUp(mem0, mem[new'[i - 1] := w], new', i + 1)
  {
    var mem' := mem[new'[i - 1] := w];
    forall a: nat | forall i :: 0 <= i < |new'| ==> a != new'[i]
      ensures Word(mem', a) == Word(mem0, a)
    {
      assert a != new'[i - 1];
    }
    forall j | 0 <= j < |new'| && j + 1 < i + 1
      ensures Word(mem', new'[j]) == if j + 1 < |new'| then new'[j + 1] else 0
    {
      if j < i - 1 {
        assert new'[j] != new'[i - 1];
        assert Word(mem, new'[j]) == if j + 1 < |new'| then new'[j + 1] else 0;
      }
    }
  }

  lemma NextNew(size: nat, ipp: nat, page: nat, new': seq<nat>, i: nat)
    requires i < ipp && size > 0 && NewSlots(size, ipp, page, new')
    ensures page <= new'[i] < page + ipp * size
    ensures new'[i] + size == if i + 1 < ipp then new'[i + 1] else page + ipp * size
  {
    SamePageApart(size, i, ipp);
    assert (i + 1) * size == i * size + size;
  }

  lemma NewApart(size: nat, ipp: nat, page: nat, new': seq<nat>)
    requires size > 0 && NewSlots(size, ipp, page, new')
    ensures forall i, j :: 0 <= i < j < ipp ==> new'[i] != new'[j]
  {
    forall i, j | 0 <= i < j < ipp
      ensures new'[i] != new'[j]
    {
      SamePageApart(size, i, j);
    }
  }

  lemma SomeFree(size: nat, ipp: nat, pages: seq<nat>, slots: seq<nat>, live: set<nat>, n: nat)
    requires Layout(size, ipp, pages, slots) && n < |slots| && n !in live
    ensures At(slots, NextFree(live, 0, |slots|)) != 0
  {
    var r := NextFree(live, 0, |slots|);
    assert r == |slots| ==> n in live;
    SlotNotNull(size, ipp, pages, slots, r);
  }

  lemma NonNullFirst(size: nat, ipp: nat, pages: seq<nat>, slots: seq<nat>, live: set<nat>)
    requires Layout(size, ipp, pages, slots)
    ensures forall k :: 0 <= k < |slots| ==> slots[k] != 0
  {
    forall k | 0 <= k < |slots|
      ensures slots[k] != 0
    {
      SlotNotNull(size, ipp, pages, slots, k);
    }
  }

  lemma BlockWrite(size: nat, ipp: nat, pages: seq<nat>, slots: seq<nat>, live: set<nat>, mem: Words, k: nat, a: nat,
                   w: nat)
    requires Layout(size, ipp, pages, slots) && k in live && k < |slots| && slots[k] <= a < slots[k] + size
    requires Linked(slots, live, mem) && Packed(ipp, pages, live, mem)
    ensures Linked(slots, live, mem[a := w]) && Packed(ipp, pages, live, mem[a := w])
    ensures ClientsKeep(size, slots, live - {k}, mem, mem[a := w])
  {
    var mem' := mem[a := w];
    assert InBlock(size, slots, live, a);
    forall j: nat
      ensures LinkOk(slots, live, mem', j)
    {
      assert LinkOk(slots, live, mem, j);
      if j < |slots| && j !in live {
        FreeSlotIsNoBlock(size, ipp, pages, slots, live, j);
      }
    }
    forall q: nat
      ensures PackedOk(ipp, pages, live, mem', q)
    {
      assert PackedOk(ipp, pages, live, mem, q);
      if q < |pages| {
        LinkIsNoBlock(size, ipp, pages, slots, live, q);
      }
    }
    forall j | j in live - {k} && j < |slots|
      ensures !(slots[j] <= a < slots[j] + size)
    {
      SlotsApart(size, ipp, pages, slots, if j < k then j else k, if j < k then k else j);
    }
  }

  /** Beyond the last slot of its page. */
  predicate Refused(size: nat, ipp: nat, block: nat) {
    block == 0 || block % PAGE_LEN >= ipp * size
  }

  lemma FreeIndex(size: nat, ipp: nat, block: nat)
    requires Sizes(size, ipp) && block != 0
    ensures IndexInPage(size, ipp, HighPart(block), block) == NO_INDEX <==> Refused(size, ipp, block)
  {
    var o := block % PAGE_LEN;
    assert block == HighPart(block) + o;
    HasItems(size, ipp);
    if o < ipp * size {
      DivBelow(o, size, ipp);
    }
  }

  lemma PrevIs(live: set<nat>, k: nat, j: int)
    requires -1 <= j < k && (forall l :: j < l < k ==> l >= 0 ==> l in live) && (j >= 0 ==> j !in live)
    ensures PrevFree(live, k) == j
  {
    var r := PrevFree(live, k);
    assert r < j ==> j in live;
    assert j < r ==> r in live;
  }
}
