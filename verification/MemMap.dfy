/** The memmap system call of src/syscall/mem/memmap.c over any number of address spaces. */
module MemMap {
  import opened Arithmetic
  import opened Common
  import opened PageTables
  import opened PhysicalMemory
  import opened VirtualMemory
  import opened UserCopy

  datatype Outcome = Ok | AlreadyMapped | NoMemory | KernelFault

  function ZeroPage(): seq<Byte> {
    seq(PAGE_LEN, _ => 0)
  }

  /** syscall_routine_memmap's length after both adjustments. */
  function PaddedLength(addr: nat, length: nat): nat {
    var l := length + addr % PAGE_LEN;
    if l % PAGE_LEN != 0 then l + PAGE_LEN - l % PAGE_LEN else l
  }

  function PageStart(addr: nat): nat {
    addr - addr % PAGE_LEN
  }

  /** Pages visited when no error stops the loop: every page start in [PageStart(addr), addr + padded). */
  function PagesVisited(addr: nat, length: nat): nat {
    PagesIn(addr % PAGE_LEN + PaddedLength(addr, length))
  }

  lemma MorePages(start: nat, end: nat, n: nat)
    requires start <= end
    ensures start + n * PAGE_LEN < end <==> n < PagesIn(end - start)
  {
  }

  lemma RangeOfCall(addr: nat, length: nat)
    ensures PageStart(addr) % PAGE_LEN == 0 &&
            PageStart(addr) <= addr + PaddedLength(addr, length) <= addr + length + 2 * PAGE_LEN
    ensures PagesIn(addr + PaddedLength(addr, length) - PageStart(addr)) == PagesVisited(addr, length)
  {
  }

  /** The visited pages cover at least [addr, addr + length) and, for unaligned addr, one page more. */
  lemma VisitedPagesCover(addr: nat, length: nat)
    ensures PageStart(addr) <= addr && addr + length <= PageStart(addr) + PagesVisited(addr, length) * PAGE_LEN
    ensures PaddedLength(addr, length) % PAGE_LEN == 0
    ensures PagesVisited(addr, length) == PaddedLength(addr, length) / PAGE_LEN + if addr % PAGE_LEN == 0 then 0 else 1
  {
  }

  // ---- what user mappings promise ----

  /** A page obtained by memmap: mapped for the user to a frame that holds bytes. */
  ghost predicate OwnedPage(ts: Tables, roots: set<nat>, data: Bytes, p: (nat, nat)) {
    && p.0 in roots && p.1 < PAGES && Lookup(ts, p.0, 4, p.1).Some?
    && Lookup(ts, p.0, 4, p.1).value.user && Lookup(ts, p.0, 4, p.1).value.frame in data
  }

  function FrameOf(ts: Tables, p: (nat, nat)): nat {
    match Lookup(ts, p.0, 4, p.1)
    case None => 0
    case Some(e) => e.frame
  }

  /** No page is mapped to frame 0, and what the user may touch is a frame of bytes. */
  ghost predicate SaneEntry(data: Bytes, e: Option<Entry>) {
    e.Some? ==> e.value.frame != 0 && (e.value.user ==> e.value.frame in data)
  }

  ghost predicate SaneView(ts: Tables, roots: set<nat>, data: Bytes) {
    forall r: nat, v: nat {:trigger Lookup(ts, r, 4, v)} :: r in roots && v < PAGES ==>
      SaneEntry(data, Lookup(ts, r, 4, v))
  }

  ghost predicate OwnedApart(ts: Tables, owned: set<(nat, nat)>) {
    forall p, q :: p in owned && q in owned && p != q ==> FrameOf(ts, p) != FrameOf(ts, q)
  }

  ghost predicate AllOwned(ts: Tables, roots: set<nat>, data: Bytes, owned: set<(nat, nat)>) {
    forall p :: p in owned ==> OwnedPage(ts, roots, data, p)
  }

  /** Pages that were mapped stay mapped exactly as they were. */
  ghost predicate NothingRemapped(ts: Tables, roots: set<nat>, ts': Tables) {
    forall r: nat, v: nat {:trigger Lookup(ts', r, 4, v)} :: r in roots && v < PAGES && Lookup(ts, r, 4, v).Some? ==>
      Lookup(ts', r, 4, v) == Lookup(ts, r, 4, v)
  }

  lemma OneMoreApart(ts: Tables, ts': Tables, owned: set<(nat, nat)>, p: (nat, nat))
    requires OwnedApart(ts, owned)
    requires forall q :: q in owned ==> FrameOf(ts', q) == FrameOf(ts, q) && FrameOf(ts, q) != FrameOf(ts', p)
    ensures OwnedApart(ts', owned + {p})
  {
  }

  /** A new page at a frame that held nothing keeps all of it. */
  lemma AddPage(ts: Tables, roots: set<nat>, ts': Tables, data: Bytes, data': Bytes,
                owned: set<(nat, nat)>, r: nat, v: nat, e: Entry)
    requires r in roots && v < PAGES && Lookup(ts, r, 4, v) == None
    requires e.present && e.user && e.frame != 0 && e.frame !in data && data'.Keys == data.Keys + {e.frame}
    requires OnePageSet(ts, roots, ts', r, v, e)
    requires SaneView(ts, roots, data) && AllOwned(ts, roots, data, owned) && OwnedApart(ts, owned)
    ensures SaneView(ts', roots, data') && NothingRemapped(ts, roots, ts')
    ensures AllOwned(ts', roots, data', owned + {(r, v)}) && OwnedApart(ts', owned + {(r, v)}) && (r, v) !in owned
  {
    forall p | p in owned
      ensures p != (r, v) && OwnedPage(ts', roots, data', p) && FrameOf(ts', p) == FrameOf(ts, p) &&
              FrameOf(ts, p) in data
    {
      assert OwnedPage(ts, roots, data, p);
      assert Lookup(ts', p.0, 4, p.1) == Lookup(ts, p.0, 4, p.1);
    }
    assert Lookup(ts', r, 4, v) == Some(e);
    OneMoreApart(ts, ts', owned, (r, v));
  }

  /** Same translations and no fewer bytes: all promises still hold. */
  lemma KeepPromises(ts: Tables, roots: set<nat>, ts': Tables, data: Bytes, data': Bytes, owned: set<(nat, nat)>)
    requires SameView(ts, roots, ts') && data.Keys <= data'.Keys
    requires SaneView(ts, roots, data) && AllOwned(ts, roots, data, owned) && OwnedApart(ts, owned)
    ensures SaneView(ts', roots, data') && AllOwned(ts', roots, data', owned) && OwnedApart(ts', owned)
  {
    forall p | p in owned
      ensures OwnedPage(ts', roots, data', p) && FrameOf(ts', p) == FrameOf(ts, p)
    {
      assert OwnedPage(ts, roots, data, p);
      assert Lookup(ts', p.0, 4, p.1) == Lookup(ts, p.0, 4, p.1);
    }
  }

  lemma RangeOfOne(ts: Tables, roots: set<nat>, ts': Tables, r: nat, a: nat, frame: nat, flags: Entry)
    requires RangeMapped(ts, roots, ts', r, PageOf(a), 1, frame, flags) && frame < FRAMES && flags.present
    ensures OnePageSet(ts, roots, ts', r, PageOf(a), flags.(frame := frame))
  {
    var base := PageOf(a);
    forall r': nat, v: nat | r' in roots && v < PAGES
      ensures Lookup(ts', r', 4, v) == if r' == r && v == base then Some(flags.(frame := frame))
                else Lookup(ts, r', 4, v)
    {
      OffsetZero(base, v);
    }
  }

  lemma OffsetZero(base: nat, v: nat)
    requires base < PAGES && v < PAGES
    ensures Offset(base, v) < 1 <==> v == base
  {
  }

  lemma RangeOfNone(ts: Tables, roots: set<nat>, ts': Tables, r: nat, base: nat, frame: nat, flags: Entry)
    requires base < PAGES && RangeMapped(ts, roots, ts', r, base, 0, frame, flags)
    ensures SameView(ts, roots, ts')
  {
  }

  /** Page v was unmapped and now has a frame of its own, with the given flags. */
  ghost predicate NewPage(ts: Tables, data: Bytes, ts': Tables, data': Bytes, owned': set<(nat, nat)>, r: nat, v: nat,
                          flags: Entry) {
    && Lookup(ts, r, 4, v) == None && Lookup(ts', r, 4, v).Some?
    && var e := Lookup(ts', r, 4, v).value;
       e == flags.(frame := e.frame) && e.frame !in data && e.frame in data' && (r, v) in owned'
  }

  ghost predicate NewOrSame(ts: Tables, data: Bytes, ts': Tables, data': Bytes, owned': set<(nat, nat)>,
                            r': nat, v: nat, r: nat, base: nat, n: nat, flags: Entry)
    requires base < PAGES && v < PAGES
  {
    if r' == r && Offset(base, v) < n then NewPage(ts, data, ts', data', owned', r', v, flags)
    else Lookup(ts', r', 4, v) == Lookup(ts, r', 4, v)
  }

  /**
    The n pages from `base` on are new, no other translation of any address space has changed, and
    every byte there was is still what it was.
   */
  ghost predicate FreshlyMapped(ts: Tables, roots: set<nat>, data: Bytes, owned: set<(nat, nat)>,
                                ts': Tables, data': Bytes, owned': set<(nat, nat)>, r: nat, base: nat, n: nat,
                                flags: Entry)
    requires base < PAGES
  {
    && (forall r': nat, v: nat {:trigger Lookup(ts', r', 4, v)} :: r' in roots && v < PAGES ==>
          NewOrSame(ts, data, ts', data', owned', r', v, r, base, n, flags))
    && (forall f :: f in data ==> f in data' && data'[f] == data[f])
    && owned <= owned'
  }

  ghost predicate ZeroFilled(ts: Tables, data: Bytes, r: nat, base: nat, n: nat)
    requires base < PAGES
  {
    forall v: nat {:trigger Lookup(ts, r, 4, v)} :: v < PAGES && Offset(base, v) < n && Lookup(ts, r, 4, v).Some? ==>
      var f := Lookup(ts, r, 4, v).value.frame; f in data && data[f] == ZeroPage()
  }

  lemma OneMoreFresh(ts: Tables, roots: set<nat>, data: Bytes, owned: set<(nat, nat)>,
                     ts1: Tables, data1: Bytes, owned1: set<(nat, nat)>,
                     ts2: Tables, data2: Bytes, r: nat, base: nat, page: nat, n: nat, flags: Entry, frame: nat)
    requires r in roots && base < PAGES && page < PAGES && flags.present && Offset(base, page) == n
    requires FreshlyMapped(ts, roots, data, owned, ts1, data1, owned1, r, base, n, flags)
    requires OnePageSet(ts1, roots, ts2, r, page, flags.(frame := frame)) && Lookup(ts1, r, 4, page) == None
    requires frame !in data1 && data2 == data1[frame := ZeroPage()]
    ensures FreshlyMapped(ts, roots, data, owned, ts2, data2, owned1 + {(r, page)}, r, base, n + 1, flags)
  {
    var owned2, n' := owned1 + {(r, page)}, n + 1;
    forall r': nat, v: nat | r' in roots && v < PAGES
      ensures NewOrSame(ts, data, ts2, data2, owned2, r', v, r, base, n', flags)
    {
      var before := Lookup(ts1, r', 4, v);
      if Offset(base, v) == Offset(base, page) {
        OffsetInjective(base, v, page);
      }
    }
  }

  lemma OneMoreZero(ts1: Tables, roots: set<nat>, data1: Bytes, ts2: Tables, data2: Bytes, r: nat, base: nat, page: nat,
                    n: nat, e: Entry)
    requires r in roots && base < PAGES && page < PAGES && Offset(base, page) == n && ZeroFilled(ts1, data1, r, base, n)
    requires OnePageSet(ts1, roots, ts2, r, page, e) && e.present && e.frame !in data1 &&
             data2 == data1[e.frame := ZeroPage()]
    ensures ZeroFilled(ts2, data2, r, base, n + 1)
  {
    forall v: nat | v < PAGES && Offset(base, v) < n + 1 && Lookup(ts2, r, 4, v).Some?
      ensures var f := Lookup(ts2, r, 4, v).value.frame; f in data2 && data2[f] == ZeroPage()
    {
      var before := Lookup(ts1, r, 4, v);
      if Offset(base, v) == Offset(base, page) {
        OffsetInjective(base, v, page);
      }
    }
  }

  lemma OnePageExactly(frame: nat)
    ensures PagesIn(PAGE_LEN) == 1 && frame * PAGE_LEN / PAGE_LEN == frame
  {
  }

  lemma PageAfter(start: nat, n: nat)
    requires n < PAGES && start + n * PAGE_LEN < WORD
    ensures Offset(PageOf(start), PageOf(start + n * PAGE_LEN)) == n
  {
    OffsetOf(start, n);
    assert (start + n * PAGE_LEN) % WORD == start + n * PAGE_LEN;
  }

  lemma PlaceOfNext(start: nat, n: nat)
    requires start % PAGE_LEN == 0 && start + n * PAGE_LEN < WORD
    ensures (start + n * PAGE_LEN) % PAGE_LEN == 0
    ensures n < PAGES ==> Offset(PageOf(start), PageOf(start + n * PAGE_LEN)) == n
  {
    if n < PAGES {
      PageAfter(start, n);
    }
  }

  /** The page after the first n is mapped exactly if it was at the start, or the space is used up. */
  lemma NextPage(ts: Tables, roots: set<nat>, data: Bytes, owned: set<(nat, nat)>,
                 ts1: Tables, data1: Bytes, owned1: set<(nat, nat)>,
                 r: nat, base: nat, page: nat, n: nat, flags: Entry)
    requires r in roots && base < PAGES && page < PAGES && n <= PAGES && (n < PAGES ==> Offset(base, page) == n)
    requires FreshlyMapped(ts, roots, data, owned, ts1, data1, owned1, r, base, n, flags)
    ensures Lookup(ts1, r, 4, page).Some? <==> n == PAGES || Lookup(ts, r, 4, page).Some?
  {
    var e := Lookup(ts1, r, 4, page);
  }

  lemma NoneFresh(ts: Tables, roots: set<nat>, data: Bytes, owned: set<(nat, nat)>, r: nat, base: nat, flags: Entry)
    requires base < PAGES
    ensures FreshlyMapped(ts, roots, data, owned, ts, data, owned, r, base, 0, flags) &&
            ZeroFilled(ts, data, r, base, 0)
  {
    forall r': nat, v: nat | r' in roots && v < PAGES
      ensures NewOrSame(ts, data, ts, data, owned, r', v, r, base, 0, flags)
    {
    }
  }

  lemma SameFresh(ts: Tables, roots: set<nat>, data: Bytes, owned: set<(nat, nat)>,
                  ts1: Tables, data1: Bytes, owned1: set<(nat, nat)>,
                  ts2: Tables, data2: Bytes, r: nat, base: nat, n: nat, flags: Entry)
    requires base < PAGES && FreshlyMapped(ts, roots, data, owned, ts1, data1, owned1, r, base, n, flags)
    requires SameView(ts1, roots, ts2) && data1.Keys <= data2.Keys && forall f :: f in data ==> data2[f] == data[f]
    ensures FreshlyMapped(ts, roots, data, owned, ts2, data2, owned1, r, base, n, flags)
  {
    forall r': nat, v: nat | r' in roots && v < PAGES
      ensures NewOrSame(ts, data, ts2, data2, owned1, r', v, r, base, n, flags)
    {
      assert Lookup(ts2, r', 4, v) == Lookup(ts1, r', 4, v);
    }
  }

  lemma SameZero(ts1: Tables, roots: set<nat>, data1: Bytes, ts2: Tables, data2: Bytes, r: nat, base: nat, n: nat)
    requires r in roots && base < PAGES && ZeroFilled(ts1, data1, r, base, n) && SameView(ts1, roots, ts2)
    requires forall f :: f in data1 ==> f in data2 && data2[f] == data1[f]
    ensures ZeroFilled(ts2, data2, r, base, n)
  {
    forall v: nat | v < PAGES && Offset(base, v) < n && Lookup(ts2, r, 4, v).Some?
      ensures var f := Lookup(ts2, r, 4, v).value.frame; f in data2 && data2[f] == ZeroPage()
    {
      assert Lookup(ts2, r, 4, v) == Lookup(ts1, r, 4, v);
    }
  }

  // ---- a buffer seen through fresh pages ----

  /** The n pages from start on show `content` at addr and zeros elsewhere. */
  ghost predicate Shows(ts: Tables, data: Bytes, r: nat, start: nat, n: nat, addr: nat, content: seq<Byte>) {
    forall a: nat {:trigger CellOf(ts, r, a)} :: start <= a < start + n * PAGE_LEN ==>
      Load(data, CellOf(ts, r, a)) == if addr <= a < addr + |content| then content[a - addr] else 0
  }

  lemma PageIndex(start: nat, n: nat, a: nat)
    requires start % PAGE_LEN == 0 && n <= PAGES && start <= a < start + n * PAGE_LEN && a < WORD
    ensures Offset(PageOf(start), PageOf(a)) == (a - start) / PAGE_LEN < n
    ensures a % PAGE_LEN == (a - start) % PAGE_LEN
  {
    var k := (a - start) / PAGE_LEN;
    assert (start + k * PAGE_LEN) / PAGE_LEN == a / PAGE_LEN;
    PageAfter(start, k);
  }

  /** What is known of an address inside freshly mapped pages. */
  lemma FreshCell(ts: Tables, roots: set<nat>, data: Bytes, owned: set<(nat, nat)>,
                  ts1: Tables, data1: Bytes, owned1: set<(nat, nat)>, r: nat, start: nat, n: nat, flags: Entry, a: nat)
    requires r in roots && start % PAGE_LEN == 0 && n <= PAGES && start <= a < start + n * PAGE_LEN && a < WORD
    requires FreshlyMapped(ts, roots, data, owned, ts1, data1, owned1, r, PageOf(start), n, flags) && flags.user
    ensures var c := CellOf(ts1, r, a);
            && c.0 !in data && c.0 in data1 && c.1 == a % PAGE_LEN && c.0 == FrameOf(ts1, (r, PageOf(a)))
            && (r, PageOf(a)) in owned1 && Allowed(ts1, r, a, false)
  {
    PageIndex(start, n, a);
    assert NewOrSame(ts, data, ts1, data1, owned1, r, PageOf(a), r, PageOf(start), n, flags) by {
      var e := Lookup(ts1, r, 4, PageOf(a));
    }
  }

  /** Different addresses of freshly mapped pages have different cells. */
  lemma FreshCellsApart(ts: Tables, roots: set<nat>, data: Bytes, owned: set<(nat, nat)>,
                        ts1: Tables, data1: Bytes, owned1: set<(nat, nat)>, r: nat, start: nat, n: nat, flags: Entry,
                        a: nat, b: nat)
    requires r in roots && start % PAGE_LEN == 0 && n <= PAGES && start + n * PAGE_LEN <= WORD && a != b
    requires start <= a < start + n * PAGE_LEN && start <= b < start + n * PAGE_LEN
    requires FreshlyMapped(ts, roots, data, owned, ts1, data1, owned1, r, PageOf(start), n, flags) && flags.user
    requires OwnedApart(ts1, owned1)
    ensures CellOf(ts1, r, a) != CellOf(ts1, r, b)
  {
    FreshCell(ts, roots, data, owned, ts1, data1, owned1, r, start, n, flags, a);
    FreshCell(ts, roots, data, owned, ts1, data1, owned1, r, start, n, flags, b);
    PageIndex(start, n, a);
    PageIndex(start, n, b);
    if PageOf(a) == PageOf(b) {
      assert (a - start) % PAGE_LEN != (b - start) % PAGE_LEN;
    }
  }

  lemma FreshDistinct(ts: Tables, roots: set<nat>, data: Bytes, owned: set<(nat, nat)>,
                      ts1: Tables, data1: Bytes, owned1: set<(nat, nat)>, r: nat, start: nat, n: nat, flags: Entry,
                      addr: nat, count: nat)
    requires r in roots && start % PAGE_LEN == 0 && n <= PAGES && start <= addr &&
             addr + count <= start + n * PAGE_LEN <= WORD
    requires FreshlyMapped(ts, roots, data, owned, ts1, data1, owned1, r, PageOf(start), n, flags) && flags.user
    requires OwnedApart(ts1, owned1)
    ensures Distinct(CellsOf(ts1, r, addr, count))
  {
    var cells := CellsOf(ts1, r, addr, count);
    forall i, j | 0 <= i < j < count
      ensures cells[i] != cells[j]
    {
      CellsOfAt(ts1, r, addr, count, i);
      CellsOfAt(ts1, r, addr, count, j);
      FreshCellsApart(ts, roots, data, owned, ts1, data1, owned1, r, start, n, flags, addr + i, addr + j);
    }
  }

  lemma FreshFrames(ts: Tables, roots: set<nat>, data: Bytes, owned: set<(nat, nat)>,
                    ts1: Tables, data1: Bytes, owned1: set<(nat, nat)>, r: nat, start: nat, n: nat, flags: Entry,
                    addr: nat, count: nat, f: nat)
    requires r in roots && start % PAGE_LEN == 0 && n <= PAGES && start <= addr &&
             addr + count <= start + n * PAGE_LEN <= WORD
    requires FreshlyMapped(ts, roots, data, owned, ts1, data1, owned1, r, PageOf(start), n, flags) && flags.user
    requires f in data
    ensures forall i :: 0 <= i < count ==> CellsOf(ts1, r, addr, count)[i].0 != f
  {
    var cells := CellsOf(ts1, r, addr, count);
    forall i | 0 <= i < count
      ensures cells[i].0 != f
    {
      CellsOfAt(ts1, r, addr, count, i);
      FreshCell(ts, roots, data, owned, ts1, data1, owned1, r, start, n, flags, addr + i);
    }
  }

  lemma ZeroCell(ts1: Tables, data1: Bytes, r: nat, start: nat, n: nat, a: nat)
    requires start % PAGE_LEN == 0 && n <= PAGES && start <= a < start + n * PAGE_LEN && a < WORD
    requires ZeroFilled(ts1, data1, r, PageOf(start), n) && Lookup(ts1, r, 4, PageOf(a)).Some?
    ensures Load(data1, CellOf(ts1, r, a)) == 0 && Holds(data1, CellOf(ts1, r, a))
  {
    PageIndex(start, n, a);
    assert PageOf(a) < PAGES;
  }

  lemma OutsideCopy(ts: Tables, roots: set<nat>, data: Bytes, owned: set<(nat, nat)>,
                    ts1: Tables, data1: Bytes, owned1: set<(nat, nat)>, r: nat, start: nat, n: nat, flags: Entry,
                    addr: nat, count: nat, a: nat)
    requires r in roots && start % PAGE_LEN == 0 && n <= PAGES && start <= addr &&
             addr + count <= start + n * PAGE_LEN <= WORD
    requires FreshlyMapped(ts, roots, data, owned, ts1, data1, owned1, r, PageOf(start), n, flags) && flags.user
    requires OwnedApart(ts1, owned1) && start <= a < start + n * PAGE_LEN && !(addr <= a < addr + count)
    ensures CellOf(ts1, r, a) !in CellsOf(ts1, r, addr, count)
  {
    var cells := CellsOf(ts1, r, addr, count);
    forall i | 0 <= i < |cells|
      ensures cells[i] != CellOf(ts1, r, a)
    {
      CellsOfAt(ts1, r, addr, count, i);
      FreshCellsApart(ts, roots, data, owned, ts1, data1, owned1, r, start, n, flags, addr + i, a);
    }
  }

  lemma InsideCopy(ts1: Tables, data1: Bytes, r: nat, addr: nat, src: seq<Byte>, a: nat)
    requires addr <= a < addr + |src| && Distinct(CellsOf(ts1, r, addr, |src|)) && Holds(data1, CellOf(ts1, r, a))
    ensures Load(Written(data1, CellsOf(ts1, r, addr, |src|), src), CellOf(ts1, r, a)) == src[a - addr]
  {
    CellsOfAt(ts1, r, addr, |src|, a - addr);
    WrittenAt(data1, CellsOf(ts1, r, addr, |src|), src, a - addr);
  }

  lemma CopyShowsAt(ts: Tables, roots: set<nat>, data: Bytes, owned: set<(nat, nat)>,
                    ts1: Tables, data1: Bytes, owned1: set<(nat, nat)>, r: nat, start: nat, n: nat, flags: Entry,
                    addr: nat, src: seq<Byte>, a: nat)
    requires r in roots && start % PAGE_LEN == 0 && n <= PAGES && start <= addr &&
             addr + |src| <= start + n * PAGE_LEN <= WORD
    requires FreshlyMapped(ts, roots, data, owned, ts1, data1, owned1, r, PageOf(start), n, flags) && flags.user
    requires OwnedApart(ts1, owned1) && ZeroFilled(ts1, data1, r, PageOf(start), n)
    requires Distinct(CellsOf(ts1, r, addr, |src|)) && start <= a < start + n * PAGE_LEN
    ensures Load(Written(data1, CellsOf(ts1, r, addr, |src|), src), CellOf(ts1, r, a)) ==
              if addr <= a < addr + |src| then src[a - addr] else 0
  {
    FreshCell(ts, roots, data, owned, ts1, data1, owned1, r, start, n, flags, a);
    ZeroCell(ts1, data1, r, start, n, a);
    if addr <= a < addr + |src| {
      InsideCopy(ts1, data1, r, addr, src, a);
    } else {
      OutsideCopy(ts, roots, data, owned, ts1, data1, owned1, r, start, n, flags, addr, |src|, a);
      WrittenElsewhere(data1, CellsOf(ts1, r, addr, |src|), src, CellOf(ts1, r, a));
    }
  }

  /** Copying into freshly mapped, cleared pages shows the bytes there and disturbs nothing older. */
  lemma CopyShows(ts: Tables, roots: set<nat>, data: Bytes, owned: set<(nat, nat)>,
                  ts1: Tables, data1: Bytes, owned1: set<(nat, nat)>, r: nat, start: nat, n: nat, flags: Entry,
                  addr: nat, src: seq<Byte>)
    requires r in roots && start % PAGE_LEN == 0 && n <= PAGES && start <= addr &&
             addr + |src| <= start + n * PAGE_LEN <= WORD
    requires FreshlyMapped(ts, roots, data, owned, ts1, data1, owned1, r, PageOf(start), n, flags) && flags.user
    requires OwnedApart(ts1, owned1) && ZeroFilled(ts1, data1, r, PageOf(start), n)
    ensures Shows(ts1, Written(data1, CellsOf(ts1, r, addr, |src|), src), r, start, n, addr, src)
    ensures Written(data1, CellsOf(ts1, r, addr, |src|), src).Keys == data1.Keys
    ensures forall f :: f in data ==> Written(data1, CellsOf(ts1, r, addr, |src|), src)[f] == data[f]
  {
    var cells := CellsOf(ts1, r, addr, |src|);
    var data2 := Written(data1, cells, src);
    FreshDistinct(ts, roots, data, owned, ts1, data1, owned1, r, start, n, flags, addr, |src|);
    forall a: nat | start <= a < start + n * PAGE_LEN
      ensures Load(data2, CellOf(ts1, r, a)) == if addr <= a < addr + |src| then src[a - addr] else 0
    {
      CopyShowsAt(ts, roots, data, owned, ts1, data1, owned1, r, start, n, flags, addr, src, a);
    }
    WrittenShape(data1, cells, src);
    forall f | f in data
      ensures data2[f] == data[f]
    {
      FreshFrames(ts, roots, data, owned, ts1, data1, owned1, r, start, n, flags, addr, |src|, f);
      OtherFrameUntouched(data1, cells, src, f);
    }
  }

  lemma ShowsSame(ts1: Tables, roots: set<nat>, ts2: Tables, data: Bytes, r: nat, start: nat, n: nat, addr: nat,
                  content: seq<Byte>)
    requires r in roots && SameView(ts1, roots, ts2) && Shows(ts1, data, r, start, n, addr, content)
    ensures Shows(ts2, data, r, start, n, addr, content)
  {
    forall a: nat | start <= a < start + n * PAGE_LEN
      ensures CellOf(ts2, r, a) == CellOf(ts1, r, a)
    {
      assert Lookup(ts2, r, 4, PageOf(a)) == Lookup(ts1, r, 4, PageOf(a));
    }
  }

  lemma SaneIsBacked(ts: Tables, roots: set<nat>, data: Bytes, r: nat)
    requires r in roots && SaneView(ts, roots, data) && forall f :: f in data ==> |data[f]| == PAGE_LEN
    ensures Backed(ts, r, data)
  {
    forall v: nat | v < PAGES && Lookup(ts, r, 4, v).Some? && Lookup(ts, r, 4, v).value.user
      ensures Lookup(ts, r, 4, v).value.frame in data
    {
      assert SaneEntry(data, Lookup(ts, r, 4, v));
    }
  }

  /** A copy into freshly mapped pages that may override the write check never stops short. */
  lemma FreshCopyCompletes(ts: Tables, roots: set<nat>, data: Bytes, owned: set<(nat, nat)>,
                           ts1: Tables, data1: Bytes, owned1: set<(nat, nat)>, r: nat, start: nat, n: nat, flags: Entry,
                           addr: nat, count: nat, done: nat)
    requires r in roots && start % PAGE_LEN == 0 && n <= PAGES && start <= addr &&
             addr + count <= start + n * PAGE_LEN <= WORD
    requires FreshlyMapped(ts, roots, data, owned, ts1, data1, owned1, r, PageOf(start), n, flags) && flags.user
    requires StoppedAt(ts1, r, addr, count, false, done)
    ensures done == count
  {
    if done < count {
      FreshCell(ts, roots, data, owned, ts1, data1, owned1, r, start, n, flags, addr + done);
    }
  }

  /** How much of a buffer memmap_from_buffer copies. */
  function ToCopy(addr: nat, length: nat, bufferLength: nat): (k: nat)
    ensures k <= bufferLength
  {
    var last := addr + length;
    var end := if last % PAGE_LEN != 0 then last + PAGE_LEN - last % PAGE_LEN else last;
    if addr + bufferLength > end then end - addr else bufferLength
  }

  /**
    A buffer that is cut short is copied up to the end of the last page of the range, and no buffer is
    copied past any later page boundary b.
   */
  lemma CopyStopsAtLastPage(addr: nat, length: nat, bufferLength: nat, b: nat)
    requires addr + length <= b && b % PAGE_LEN == 0
    ensures var k := ToCopy(addr, length, bufferLength);
            && addr + k <= b && k <= bufferLength
            && (k < bufferLength ==> (addr + k) % PAGE_LEN == 0 && k >= length)
  {
    var last := addr + length;
    DivMod(last, PAGE_LEN);
    DivMod(b, PAGE_LEN);
    var q, r, p := last / PAGE_LEN, last % PAGE_LEN, b / PAGE_LEN;
    if r != 0 {
      assert p > q;
      AddMulDiv(q + 1, PAGE_LEN, 0);
    }
  }

  lemma CopyFits(addr: nat, length: nat, bufferLength: nat)
    requires addr + length + 2 * PAGE_LEN <= WORD
    ensures addr + ToCopy(addr, length, bufferLength) <= PageStart(addr) + PagesVisited(addr, length) * PAGE_LEN <= WORD
    ensures PageStart(addr) % PAGE_LEN == 0 && PageStart(addr) <= addr
    ensures bufferLength <= length ==> ToCopy(addr, length, bufferLength) == bufferLength
  {
    var q, r := addr / PAGE_LEN, addr % PAGE_LEN;
    DivMod(addr, PAGE_LEN);
    AddMulDiv(q, PAGE_LEN, r + length);
    DivMod(r + length, PAGE_LEN);
    var n := (r + length) / PAGE_LEN + if (r + length) % PAGE_LEN == 0 then 0 else 1;
    assert PaddedLength(addr, length) == n * PAGE_LEN;
    AddMulDiv(n, PAGE_LEN, r + PAGE_LEN - 1);
    MulDiv(q, PAGE_LEN);
  }

  class UserMemory {
    const m: Machine
    ghost var owned: set<(nat, nat)> // (address space, page) pairs obtained by memmap

    ghost predicate Valid()
      reads this, m, m.pmm
    {
      && m.Valid() && SaneView(m.tables, m.roots, m.data)
      && AllOwned(m.tables, m.roots, m.data, owned) && OwnedApart(m.tables, owned)
    }

    constructor (machine: Machine)
      requires machine.Valid() && SaneView(machine.tables, machine.roots, machine.data)
      ensures m == machine && owned == {} && Valid()
    {
      m, owned := machine, {};
    }

    /** In every state the methods below can reach: pages from memmap are backed by frames of their own. */
    lemma PagesKeptApart(p: (nat, nat), q: (nat, nat))
      requires Valid() && p in owned && q in owned
      ensures var f := FrameOf(m.tables, p);
              && f in m.data && f !in m.tables && f !in m.pmm.free && (p != q ==> f != FrameOf(m.tables, q))
    {
      assert OwnedPage(m.tables, m.roots, m.data, p);
    }

    /** A frame for one page, cleared; 0 when there is none. */
    method ClearedFrame() returns (frame: nat)
      requires Valid() && !m.pmm.locked
      modifies m`data, m.pmm
      ensures Valid()
      ensures frame == 0 ==> m.data == old(m.data) && m.pmm.locked && m.pmm.free == []
      ensures frame != 0 ==> !m.pmm.locked && frame < FRAMES && frame !in old(m.data) &&
                             m.data == old(m.data)[frame := ZeroPage()]
    {
      var phys := m.pmm.FindNextFreeFrame();
      frame := phys / PAGE_LEN;
      if frame != 0 {
        m.data := m.data[frame := ZeroPage()];
        KeepPromises(m.tables, m.roots, m.tables, old(m.data), m.data, owned);
      }
    }

    /** map_virtual_memory for one page. */
    method MapOne(r: nat, a: nat, frame: nat, flags: Entry) returns (ok: bool)
      requires m.Valid() && !m.pmm.locked && r in m.roots && flags.present && frame < FRAMES
      modifies m`tables, m`place, m.pmm
      ensures m.Valid() && ok == !m.pmm.locked && (!ok ==> m.pmm.free == [])
      ensures !ok ==> SameView(old(m.tables), m.roots, m.tables)
      ensures ok ==> OnePageSet(old(m.tables), m.roots, m.tables, r, PageOf(a), flags.(frame := frame))
    {
      OnePageExactly(frame);
      ghost var n;
      ok, n := m.MapRange(r, frame * PAGE_LEN, a, PAGE_LEN, flags);
      if ok {
        RangeOfOne(old(m.tables), m.roots, m.tables, r, a, frame, flags);
      } else {
        RangeOfNone(old(m.tables), m.roots, m.tables, r, PageOf(a), frame, flags);
      }
    }

    /** Maps page a to a cleared frame that no page uses. */
    method MapCleared(r: nat, a: nat, frame: nat, flags: Entry, ghost data: Bytes) returns (ok: bool)
      requires m.Valid() && !m.pmm.locked && r in m.roots && flags.present && flags.user
      requires 0 < frame < FRAMES && m.View(r, PageOf(a)) == None
      requires frame !in data && m.data.Keys == data.Keys + {frame}
      requires SaneView(m.tables, m.roots, data) && AllOwned(m.tables, m.roots, data, owned) &&
               OwnedApart(m.tables, owned)
      modifies this, m`tables, m`place, m.pmm
      ensures Valid() && ok == !m.pmm.locked && (!ok ==> m.pmm.free == [])
      ensures !ok ==> owned == old(owned) && SameView(old(m.tables), m.roots, m.tables)
      ensures ok ==> owned == old(owned) + {(r, PageOf(a))}
      ensures ok ==> OnePageSet(old(m.tables), m.roots, m.tables, r, PageOf(a), flags.(frame := frame))
    {
      ok := MapOne(r, a, frame, flags);
      if ok {
        AddPage(old(m.tables), m.roots, m.tables, data, m.data, owned, r, PageOf(a), flags.(frame := frame));
        owned := owned + {(r, PageOf(a))};
      } else {
        KeepPromises(old(m.tables), m.roots, m.tables, data, m.data, owned);
      }
    }

    /** The body of memmap's loop. */
    method MapFreshPage(r: nat, a: nat, flags: Entry) returns (res: Outcome, ghost frame: nat)
      requires Valid() && !m.pmm.locked && r in m.roots && a % PAGE_LEN == 0 && flags.present && flags.user
      modifies this, m`tables, m`data, m`place, m.pmm
      ensures Valid() && (res.Ok? || res.AlreadyMapped? <==> !m.pmm.locked) && (m.pmm.locked ==> m.pmm.free == [])
      ensures res.AlreadyMapped? <==> old(m.View(r, PageOf(a))).Some?
      ensures !res.Ok? ==> owned == old(owned) && SameView(old(m.tables), m.roots, m.tables)
      ensures res.Ok? ==> OnePageSet(old(m.tables), m.roots, m.tables, r, PageOf(a), flags.(frame := frame))
      ensures res.Ok? ==> owned == old(owned) + {(r, PageOf(a))}
      ensures m.data == old(m.data) || (frame !in old(m.data) && m.data == old(m.data)[frame := ZeroPage()])
      ensures res.Ok? ==> frame !in old(m.data) && m.data == old(m.data)[frame := ZeroPage()]
    {
      GetPhysaddrIsLookup(m.tables, m.place, r, a);
      assert SaneEntry(m.data, m.View(r, PageOf(a)));
      frame := 0;
      if GetPhysaddr(m.tables, m.place, r, a) != 0 {
        return AlreadyMapped, 0;
      }
      var f := ClearedFrame();
      if f == 0 {
        return NoMemory, 0;
      }
      frame := f;
      var ok := MapCleared(r, a, f, flags, old(m.data));
      return if ok then Ok else KernelFault, f;
    }

    /** One round of memmap's loop, after the first n pages of the range from `start`. */
    method MapNextPage(r: nat, start: nat, voffs: nat, flags: Entry, ghost n: nat,
                       ghost ts: Tables, ghost data: Bytes, ghost own: set<(nat, nat)>) returns (res: Outcome)
      requires Valid() && !m.pmm.locked && r in m.roots && start % PAGE_LEN == 0 && flags.present && flags.user
      requires voffs == start + n * PAGE_LEN < WORD && n <= PAGES
      requires FreshlyMapped(ts, m.roots, data, own, m.tables, m.data, owned, r, PageOf(start), n, flags)
      requires ZeroFilled(m.tables, m.data, r, PageOf(start), n)
      modifies this, m`tables, m`data, m`place, m.pmm
      ensures Valid() && (res.Ok? || res.AlreadyMapped? <==> !m.pmm.locked) && (m.pmm.locked ==> m.pmm.free == [])
      ensures FreshlyMapped(ts, m.roots, data, own, m.tables, m.data, owned, r, PageOf(start),
                            if res.Ok? then n + 1 else n, flags)
      ensures ZeroFilled(m.tables, m.data, r, PageOf(start), if res.Ok? then n + 1 else n)
      ensures res.AlreadyMapped? <==> n == PAGES || Lookup(ts, r, 4, PageOf(voffs)).Some?
    {
      ghost var ts1, data1, owned1, base, page := m.tables, m.data, owned, PageOf(start), PageOf(voffs);
      ghost var frame;
      PlaceOfNext(start, n);
      NextPage(ts, m.roots, data, own, m.tables, m.data, owned, r, base, page, n, flags);
      res, frame := MapFreshPage(r, voffs, flags);
      if res.Ok? {
        assert Offset(base, page) == n;
        OneMoreFresh(ts, m.roots, data, own, ts1, data1, owned1, m.tables, m.data, r, base, page, n, flags, frame);
        OneMoreZero(ts1, m.roots, data1, m.tables, m.data, r, base, page, n, flags.(frame := frame));
      } else {
        SameFresh(ts, m.roots, data, own, ts1, data1, owned1, m.tables, m.data, r, base, n, flags);
        SameZero(ts1, m.roots, data1, m.tables, m.data, r, base, n);
      }
    }

    /** memmap's loop over the page starts in [start, end). */
    method MapPages(r: nat, start: nat, end: nat, flags: Entry) returns (res: Outcome, ghost n: nat, ghost at: nat)
      requires Valid() && !m.pmm.locked && r in m.roots && flags.present && flags.user
      requires start % PAGE_LEN == 0 && start <= end <= WORD
      modifies this, m`tables, m`data, m`place, m.pmm
      ensures Valid() && (res.Ok? || res.AlreadyMapped? <==> !m.pmm.locked)
      ensures FreshlyMapped(old(m.tables), m.roots, old(m.data), old(owned), m.tables, m.data, owned, r, PageOf(start),
                            n, flags)
      ensures ZeroFilled(m.tables, m.data, r, PageOf(start), n)
      ensures n <= PAGES && if res.Ok? then n == PagesIn(end - start) else n < PagesIn(end - start)
      ensures at == start + n * PAGE_LEN
      ensures !res.Ok? ==> (res.AlreadyMapped? <==> n == PAGES || old(m.View(r, PageOf(at))).Some?)
      ensures res.NoMemory? || res.KernelFault? ==> m.pmm.free == []
    {
      var voffs := start;
      ghost var total := PagesIn(end - start);
      n := 0;
      NoneFresh(m.tables, m.roots, m.data, owned, r, PageOf(start), flags);
      MorePages(start, end, 0);
      while voffs < end
        invariant Valid() && !m.pmm.locked && voffs == start + n * PAGE_LEN && n <= total && n <= PAGES
        invariant voffs < end <==> n < total
        invariant FreshlyMapped(old(m.tables), m.roots, old(m.data), old(owned), m.tables, m.data, owned, r,
                                PageOf(start), n, flags)
        invariant ZeroFilled(m.tables, m.data, r, PageOf(start), n)
        decreases total - n
      {
        at := voffs;
        res := MapNextPage(r, start, voffs, flags, n, old(m.tables), old(m.data), old(owned));
        if !res.Ok? {
          return;
        }
        MorePages(start, end, n + 1);
        voffs := voffs + PAGE_LEN;
        n := n + 1;
      }
      return Ok, n, voffs;
    }

    /**
      syscall_routine_memmap.  Whatever the outcome, the first n pages of the range -- none of them
      mapped before -- are now mapped to new frames full of zeros, no other translation of any
      address space has changed and no older byte is touched.
     */
    method MemMap(r: nat, addr: nat, length: nat, wr: bool, ex: bool)
      returns (res: Outcome, ghost n: nat, ghost at: nat)
      requires Valid() && !m.pmm.locked && r in m.roots && addr + length + 2 * PAGE_LEN <= WORD
      modifies this, m`tables, m`data, m`place, m.pmm
      ensures Valid() && (res.Ok? || res.AlreadyMapped? <==> !m.pmm.locked)
      ensures FreshlyMapped(old(m.tables), m.roots, old(m.data), old(owned), m.tables, m.data, owned,
                            r, PageOf(PageStart(addr)), n, Entry(true, wr, true, !ex, 0))
      ensures ZeroFilled(m.tables, m.data, r, PageOf(PageStart(addr)), n)
      ensures if res.Ok? then n == PagesVisited(addr, length) else n < PagesVisited(addr, length)
      ensures n <= PAGES
      ensures at == PageStart(addr) + n * PAGE_LEN
      ensures !res.Ok? ==> (res.AlreadyMapped? <==> n == PAGES || old(m.View(r, PageOf(at))).Some?)
      ensures res.NoMemory? || res.KernelFault? ==> m.pmm.free == []
    {
      RangeOfCall(addr, length);
      res, n, at := MapPages(r, PageStart(addr), addr + PaddedLength(addr, length), Entry(true, wr, true, !ex, 0));
    }

    /** copy_to_user_buf into pages memmap has just provided. */
    method FillFresh(r: nat, addr: nat, content: seq<Byte>, flags: Entry, ghost start: nat, ghost n: nat,
                     ghost ts: Tables, ghost data: Bytes, ghost own: set<(nat, nat)>)
      requires Valid() && !m.pmm.locked && r in m.roots && flags.user
      requires start % PAGE_LEN == 0 && n <= PAGES && start <= addr && addr + |content| <= start + n * PAGE_LEN <= WORD
      requires FreshlyMapped(ts, m.roots, data, own, m.tables, m.data, owned, r, PageOf(start), n, flags)
      requires ZeroFilled(m.tables, m.data, r, PageOf(start), n)
      modifies m`tables, m`data, m`place, m.pmm
      ensures Valid() && !m.pmm.locked
      ensures FreshlyMapped(ts, m.roots, data, own, m.tables, m.data, owned, r, PageOf(start), n, flags)
      ensures Shows(m.tables, m.data, r, start, n, addr, content)
    {
      ghost var ts1, data1 := m.tables, m.data;
      SaneIsBacked(ts1, m.roots, data1, r);
      CopyShows(ts, m.roots, data, own, ts1, data1, owned, r, start, n, flags, addr, content);
      ghost var done;
      var ok;
      ok, done := CopyToUser(m, r, addr, content, true);
      FreshCopyCompletes(ts, m.roots, data, own, ts1, data1, owned, r, start, n, flags, addr, |content|, done);
      assert content[..done] == content && CellsOf(ts1, r, addr, |content|)[..done] == CellsOf(ts1, r, addr, |content|);
      SameFresh(ts, m.roots, data, own, ts1, data1, owned, m.tables, m.data, r, PageOf(start), n, flags);
      ShowsSame(ts1, m.roots, m.tables, m.data, r, start, n, addr, content);
      KeepPromises(ts1, m.roots, m.tables, data1, m.data, owned);
    }

    /**
      syscall_routine_memmap_from_buffer: as memmap, and on success the new pages show the buffer at
      addr and zeros in every other byte.
     */
    method MemMapFromBuffer(r: nat, addr: nat, length: nat, wr: bool, ex: bool, buffer: seq<Byte>)
      returns (res: Outcome, ghost n: nat)
      requires Valid() && !m.pmm.locked && r in m.roots
      requires addr + length + 2 * PAGE_LEN <= WORD && addr + |buffer| <= WORD
      modifies this, m`tables, m`data, m`place, m.pmm
      ensures Valid() && (res.Ok? || res.AlreadyMapped? <==> !m.pmm.locked)
      ensures FreshlyMapped(old(m.tables), m.roots, old(m.data), old(owned), m.tables, m.data, owned,
                            r, PageOf(PageStart(addr)), n, Entry(true, wr, true, !ex, 0))
      ensures if res.Ok? then n == PagesVisited(addr, length) else n < PagesVisited(addr, length)
      ensures !res.Ok? ==> ZeroFilled(m.tables, m.data, r, PageOf(PageStart(addr)), n)
      ensures res.Ok? ==> Shows(m.tables, m.data, r, PageStart(addr), n, addr, buffer[..ToCopy(addr, length, |buffer|)])
    {
      ghost var at;
      res, n, at := MemMap(r, addr, length, wr, ex);
      if res.Ok? {
        CopyFits(addr, length, |buffer|);
        FillFresh(r, addr, buffer[..ToCopy(addr, length, |buffer|)], Entry(true, wr, true, !ex, 0), PageStart(addr), n,
                  old(m.tables), old(m.data), old(owned));
      }
    }

    /** create_proc's pml4: an address space with nothing mapped, and no other one notices. */
    method NewAddressSpace() returns (r: nat)
      requires Valid() && !m.pmm.locked
      modifies m`tables, m`place, m`roots, m.pmm
      ensures Valid() && (r == 0 <==> m.pmm.locked)
      ensures r == 0 ==> m.roots == old(m.roots) && m.tables == old(m.tables)
      ensures r != 0 ==> r !in old(m.roots) && m.roots == old(m.roots) + {r} && NothingMapped(m.tables, r)
      ensures SameView(old(m.tables), old(m.roots), m.tables)
    {
      r := m.NewRoot();
      if r != 0 {
        RootPromises(old(m.tables), old(m.roots), m.tables, m.data, owned, r);
      } else {
        KeepPromises(old(m.tables), m.roots, m.tables, m.data, m.data, owned);
      }
    }
  }

  lemma RootPromises(ts: Tables, roots: set<nat>, ts': Tables, data: Bytes, owned: set<(nat, nat)>, r: nat)
    requires SameView(ts, roots, ts') && NothingMapped(ts', r)
    requires SaneView(ts, roots, data) && AllOwned(ts, roots, data, owned) && OwnedApart(ts, owned)
    ensures SaneView(ts', roots + {r}, data) && AllOwned(ts', roots + {r}, data, owned) && OwnedApart(ts', owned)
  {
    KeepPromises(ts, roots, ts', data, data, owned);
    forall p | p in owned
      ensures OwnedPage(ts', roots + {r}, data, p)
    {
      assert OwnedPage(ts', roots, data, p);
    }
  }
}
