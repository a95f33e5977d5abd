/** The memprotect system call of src/syscall/mem/memmap.c: permissions of user pages can only shrink. */
module MemProtect {
  import opened Arithmetic
  import opened Common
  import opened PageTables
  import opened PhysicalMemory
  import opened VirtualMemory
  import opened UserCopy
  import opened MemMap

  /** 0, -EFAULT and -EINVAL. */
  datatype Verdict = Granted | BadAddress | Refused

  /** What the checks say about one page. */
  function Judge(page: Option<Entry>, wr: bool, ex: bool): Verdict {
    match page
    case None => BadAddress
    case Some(e) =>
      if e.frame == 0 || !e.user then BadAddress
      else if (wr && !e.rw) || (ex && e.nx) then Refused
      else Granted
  }

  ghost predicate PageProtected(ts: Tables, ts': Tables, r': nat, v: nat, r: nat, base: nat, n: nat, wr: bool, ex: bool)
    requires base < PAGES && v < PAGES
  {
    var page := Lookup(ts, r', 4, v);
    if r' == r && Offset(base, v) < n then
      Judge(page, wr, ex) == Granted && Lookup(ts', r', 4, v) == Some(page.value.(rw := wr, nx := !ex))
    else Lookup(ts', r', 4, v) == page
  }

  /** The first n pages from `base` on were eligible and have the permissions asked for; nothing else has changed. */
  ghost predicate Protected(ts: Tables, roots: set<nat>, ts': Tables, r: nat, base: nat, n: nat, wr: bool, ex: bool)
    requires base < PAGES
  {
    forall r': nat, v: nat {:trigger Lookup(ts', r', 4, v)} :: r' in roots && v < PAGES ==>
      PageProtected(ts, ts', r', v, r, base, n, wr, ex)
  }

  /**
    memprotect takes away exactly what it was not asked to keep: an access is allowed afterwards if
    and only if it was allowed before and is not a write to one of the pages that lost the right to
    be written.  No address moves to another physical cell.
   */
  lemma OnlyTakesAway(ts: Tables, roots: set<nat>, ts': Tables, r: nat, base: nat, n: nat, wr: bool, ex: bool, r': nat,
                      a: nat, strict: bool)
    requires base < PAGES && r' in roots && Protected(ts, roots, ts', r, base, n, wr, ex)
    ensures Allowed(ts', r', a, strict) <==>
            Allowed(ts, r', a, strict) && !(strict && !wr && r' == r && Offset(base, PageOf(a)) < n)
    ensures CellOf(ts', r', a) == CellOf(ts, r', a)
  {
    var after := Lookup(ts', r', 4, PageOf(a));
    assert PageProtected(ts, ts', r', PageOf(a), r, base, n, wr, ex);
  }

  /** Instructions can be fetched from page v. */
  ghost predicate Executable(ts: Tables, r: nat, v: nat) {
    Lookup(ts, r, 4, v).Some? && !Lookup(ts, r, 4, v).value.nx
  }

  /** ... and likewise of execution: a page is executable afterwards exactly if it was and did not lose the right. */
  lemma OnlyTakesAwayExecution(ts: Tables, roots: set<nat>, ts': Tables, r: nat, base: nat, n: nat, wr: bool, ex: bool,
                               r': nat, v: nat)
    requires base < PAGES && v < PAGES && r' in roots && Protected(ts, roots, ts', r, base, n, wr, ex)
    ensures Executable(ts', r', v) <==> Executable(ts, r', v) && !(!ex && r' == r && Offset(base, v) < n)
  {
    var after := Lookup(ts', r', 4, v);
    assert PageProtected(ts, ts', r', v, r, base, n, wr, ex);
  }

  /** A user page on a frame of its own, with every right asked for. */
  predicate HasRights(page: Option<Entry>, wr: bool, ex: bool) {
    page.Some? && page.value.user && page.value.frame != 0 && (wr ==> page.value.rw) && (ex ==> !page.value.nx)
  }

  /** So have the n pages from address start on. */
  ghost predicate AllHaveRights(ts: Tables, r: nat, start: nat, n: nat, wr: bool, ex: bool) {
    forall k: nat :: k < n ==> HasRights(Lookup(ts, r, 4, PageOf(start + k * PAGE_LEN)), wr, ex)
  }

  /** The k-th page of a range around the 48-bit space is one of the first PAGES. */
  lemma AroundTheSpace(start: nat, k: nat)
    ensures PageOf(start + k * PAGE_LEN) == PageOf(start + k % PAGES * PAGE_LEN)
    ensures Offset(PageOf(start), PageOf(start + k * PAGE_LEN)) <= k
  {
    var x, y := start / PAGE_LEN, k % PAGES;
    AddMulDiv(k, PAGE_LEN, start);
    AddMulDiv(y, PAGE_LEN, start);
    DivMod(k, PAGES);
    AddMulDiv(k / PAGES, PAGES, x + y);
    OffsetOf(start, y);
    AddMulDiv(y, PAGE_LEN, start);
    WordPage(start + y * PAGE_LEN);
    MulOrder(0, k / PAGES, PAGES);
  }

  /** The outcome of a call that stopped after n of its pages, over the tables as they were. */
  lemma SucceedsIff(ts: Tables, roots: set<nat>, ts': Tables, r: nat, start: nat, n: nat, total: nat, res: Verdict,
                    wr: bool, ex: bool)
    requires r in roots && Protected(ts, roots, ts', r, PageOf(start), n, wr, ex)
    requires if res == Granted then n == total
             else n < total && res == Judge(Lookup(ts, r, 4, PageOf(start + n * PAGE_LEN)), wr, ex)
    ensures (res == Granted <==> AllHaveRights(ts, r, start, total, wr, ex)) && AllHaveRights(ts, r, start, n, wr, ex)
    ensures res != Granted ==>
              var page := Lookup(ts, r, 4, PageOf(start + n * PAGE_LEN));
              !HasRights(page, wr, ex) && (res == Refused <==> HasRights(page, false, false))
  {
    forall k: nat | k < n
      ensures HasRights(Lookup(ts, r, 4, PageOf(start + k * PAGE_LEN)), wr, ex)
    {
      AroundTheSpace(start, k);
      var v := PageOf(start + k * PAGE_LEN);
      var after := Lookup(ts', r, 4, v);
      assert PageProtected(ts, ts', r, v, r, PageOf(start), n, wr, ex);
    }
  }

  /** After write access is gone, copy_to_user_buf without override stops before its first byte there. */
  lemma ProtectedPagesRefuseCopies(ts: Tables, roots: set<nat>, ts': Tables, r: nat, base: nat, n: nat, ex: bool,
                                   a: nat, count: nat, copied: nat)
    requires base < PAGES && r in roots && Protected(ts, roots, ts', r, base, n, false, ex)
    requires Offset(base, PageOf(a)) < n && count > 0 && StoppedAt(ts', r, a, count, true, copied)
    ensures copied == 0
  {
    OnlyTakesAway(ts, roots, ts', r, base, n, false, ex, r, a, true);
  }

  /** Judging the next page now is judging it as it was at the start, also when the range wraps around. */
  lemma NextJudged(ts: Tables, roots: set<nat>, ts1: Tables, r: nat, base: nat, page: nat, n: nat, wr: bool, ex: bool)
    requires r in roots && base < PAGES && page < PAGES && Protected(ts, roots, ts1, r, base, n, wr, ex)
    ensures Judge(Lookup(ts1, r, 4, page), wr, ex) == Judge(Lookup(ts, r, 4, page), wr, ex)
  {
    var now := Lookup(ts1, r, 4, page);
    assert PageProtected(ts, ts1, r, page, r, base, n, wr, ex);
  }

  lemma OneMoreProtected(ts: Tables, roots: set<nat>, ts1: Tables, ts2: Tables, r: nat, base: nat, page: nat, n: nat,
                         wr: bool, ex: bool)
    requires r in roots && base < PAGES && page < PAGES && (n < PAGES ==> Offset(base, page) == n)
    requires Protected(ts, roots, ts1, r, base, n, wr, ex) && Judge(Lookup(ts1, r, 4, page), wr, ex) == Granted
    requires Lookup(ts1, r, 4, page).value.present
    requires OnePageSet(ts1, roots, ts2, r, page, Lookup(ts1, r, 4, page).value.(rw := wr, nx := !ex))
    ensures Protected(ts, roots, ts2, r, base, n + 1, wr, ex)
  {
    var n' := n + 1;
    forall r': nat, v: nat | r' in roots && v < PAGES
      ensures PageProtected(ts, ts2, r', v, r, base, n', wr, ex)
    {
      var before := Lookup(ts1, r', 4, v);
      assert PageProtected(ts, ts1, r', v, r, base, n, wr, ex);
      if Offset(base, v) == n && n < PAGES {
        OffsetInjective(base, v, page);
      }
    }
  }

  lemma NoneProtected(ts: Tables, roots: set<nat>, r: nat, base: nat, wr: bool, ex: bool)
    requires base < PAGES
    ensures Protected(ts, roots, ts, r, base, 0, wr, ex)
  {
    forall r': nat, v: nat | r' in roots && v < PAGES
      ensures PageProtected(ts, ts, r', v, r, base, 0, wr, ex)
    {
    }
  }

  lemma SameProtected(ts: Tables, roots: set<nat>, ts1: Tables, ts2: Tables, r: nat, base: nat, n: nat, wr: bool,
                      ex: bool)
    requires base < PAGES && Protected(ts, roots, ts1, r, base, n, wr, ex) && SameView(ts1, roots, ts2)
    ensures Protected(ts, roots, ts2, r, base, n, wr, ex)
  {
    forall r': nat, v: nat | r' in roots && v < PAGES
      ensures PageProtected(ts, ts2, r', v, r, base, n, wr, ex)
    {
      var before := Lookup(ts1, r', 4, v);
      assert PageProtected(ts, ts1, r', v, r, base, n, wr, ex);
    }
  }

  /** What memmap promises survives: frames, ownership and user access are as before. */
  lemma PromisesSurvive(ts: Tables, roots: set<nat>, ts': Tables, data: Bytes, owned: set<(nat, nat)>, r: nat,
                        base: nat, n: nat, wr: bool, ex: bool)
    requires base < PAGES && Protected(ts, roots, ts', r, base, n, wr, ex)
    requires SaneView(ts, roots, data) && AllOwned(ts, roots, data, owned) && OwnedApart(ts, owned)
    ensures SaneView(ts', roots, data) && AllOwned(ts', roots, data, owned) && OwnedApart(ts', owned)
  {
    forall r': nat, v: nat | r' in roots && v < PAGES
      ensures SaneEntry(data, Lookup(ts', r', 4, v))
    {
      var after := Lookup(ts', r', 4, v);
      assert PageProtected(ts, ts', r', v, r, base, n, wr, ex) && SaneEntry(data, Lookup(ts, r', 4, v));
    }
    forall p | p in owned
      ensures OwnedPage(ts', roots, data, p) && FrameOf(ts', p) == FrameOf(ts, p)
    {
      var after := Lookup(ts', p.0, 4, p.1);
      assert OwnedPage(ts, roots, data, p) && PageProtected(ts, ts', p.0, p.1, r, base, n, wr, ex);
    }
  }

  /** The body of the loop. */
  method ProtectPage(m: Machine, r: nat, a: nat, wr: bool, ex: bool) returns (res: Verdict)
    requires m.Valid() && !m.pmm.locked && r in m.roots
    modifies m`tables, m`place, m.pmm
    ensures m.Valid() && !m.pmm.locked && m.pmm.free == old(m.pmm.free)
    ensures res == Judge(old(m.View(r, PageOf(a))), wr, ex)
    ensures res != Granted ==> SameView(old(m.tables), m.roots, m.tables)
    ensures res == Granted ==>
              && old(m.View(r, PageOf(a))).value.present
              && OnePageSet(old(m.tables), m.roots, m.tables, r, PageOf(a),
                            old(m.View(r, PageOf(a))).value.(rw := wr, nx := !ex))
  {
    var page := m.FindPage(r, a, false, IsUserspace(a));
    if page == None {
      return BadAddress;
    }
    var e := m.tables[page.value.0][page.value.1];
    PresentLeaf(m.tables, r, 4, PageOf(a));
    if e.frame == 0 || !e.user {
      return BadAddress;
    }
    var rw, nx := e.rw, e.nx;
    if wr {
      if !rw {
        return Refused;
      }
    } else {
      rw := false;
    }
    if ex {
      if nx {
        return Refused;
      }
    } else {
      nx := true;
    }
    ghost var ts1 := m.tables;
    var ok := m.MapPage(r, a, Entry(true, rw, true, nx, e.frame));
    SameViewThenPage(old(m.tables), m.roots, ts1, m.tables, r, PageOf(a), Entry(true, rw, true, nx, e.frame));
    return Granted;
  }

  /** One round, after the first n pages of the range from `start`. */
  method ProtectNext(m: Machine, r: nat, start: nat, voffs: nat, wr: bool, ex: bool, ghost n: nat, ghost ts: Tables)
    returns (res: Verdict)
    requires m.Valid() && !m.pmm.locked && r in m.roots && voffs == start + n * PAGE_LEN < WORD
    requires Protected(ts, m.roots, m.tables, r, PageOf(start), n, wr, ex)
    modifies m`tables, m`place, m.pmm
    ensures m.Valid() && !m.pmm.locked && m.pmm.free == old(m.pmm.free)
    ensures res == Judge(Lookup(ts, r, 4, PageOf(voffs)), wr, ex)
    ensures Protected(ts, m.roots, m.tables, r, PageOf(start), if res == Granted then n + 1 else n, wr, ex)
  {
    ghost var ts1, base, page := m.tables, PageOf(start), PageOf(voffs);
    if n < PAGES {
      PageAfter(start, n);
    }
    NextJudged(ts, m.roots, m.tables, r, base, page, n, wr, ex);
    res := ProtectPage(m, r, voffs, wr, ex);
    if res == Granted {
      OneMoreProtected(ts, m.roots, ts1, m.tables, r, base, page, n, wr, ex);
    } else {
      SameProtected(ts, m.roots, ts1, m.tables, r, base, n, wr, ex);
    }
  }

  /** The loop over the page starts in [start, end). */
  method ProtectPages(m: Machine, r: nat, start: nat, end: nat, wr: bool, ex: bool)
    returns (res: Verdict, ghost n: nat, ghost at: nat)
    requires m.Valid() && !m.pmm.locked && r in m.roots && start <= end <= WORD
    modifies m`tables, m`place, m.pmm
    ensures m.Valid() && !m.pmm.locked && m.pmm.free == old(m.pmm.free)
    ensures Protected(old(m.tables), m.roots, m.tables, r, PageOf(start), n, wr, ex)
    ensures if res == Granted then n == PagesIn(end - start) else n < PagesIn(end - start)
    ensures at == start + n * PAGE_LEN
    ensures res != Granted ==> res == Judge(old(m.View(r, PageOf(at))), wr, ex)
  {
    var voffs := start;
    ghost var total := PagesIn(end - start);
    n := 0;
    NoneProtected(m.tables, m.roots, r, PageOf(start), wr, ex);
    MorePages(start, end, 0);
    while voffs < end
      invariant m.Valid() && !m.pmm.locked && m.pmm.free == old(m.pmm.free)
      invariant voffs == start + n * PAGE_LEN && n <= total && (voffs < end <==> n < total)
      invariant Protected(old(m.tables), m.roots, m.tables, r, PageOf(start), n, wr, ex)
      decreases total - n
    {
      at := voffs;
      res := ProtectNext(m, r, start, voffs, wr, ex, n, old(m.tables));
      if res != Granted {
        return;
      }
      MorePages(start, end, n + 1);
      voffs := voffs + PAGE_LEN;
      n := n + 1;
    }
    return Granted, n, voffs;
  }

  /**
    syscall_routine_memprotect.  It stops exactly at the first page that fails its checks, with that
    page's verdict; the pages before it have the permissions asked for, no other page of any address
    space changes, and no frame is taken.
   */
  method MemProtect(u: UserMemory, r: nat, addr: nat, length: nat, wr: bool, ex: bool)
    returns (res: Verdict, ghost n: nat, ghost at: nat)
    requires u.Valid() && !u.m.pmm.locked && r in u.m.roots && addr + length + 2 * PAGE_LEN <= WORD
    modifies u.m`tables, u.m`place, u.m.pmm
    ensures u.Valid() && !u.m.pmm.locked && u.m.pmm.free == old(u.m.pmm.free)
    ensures Protected(old(u.m.tables), u.m.roots, u.m.tables, r, PageOf(PageStart(addr)), n, wr, ex)
    ensures if res == Granted then n == PagesVisited(addr, length) else n < PagesVisited(addr, length)
    ensures at == PageStart(addr) + n * PAGE_LEN
    ensures res == Granted <==> AllHaveRights(old(u.m.tables), r, PageStart(addr), PagesVisited(addr, length), wr, ex)
    ensures AllHaveRights(old(u.m.tables), r, PageStart(addr), n, wr, ex)
    ensures res != Granted ==> !HasRights(old(u.m.View(r, PageOf(at))), wr, ex)
    ensures res == Refused ==> HasRights(old(u.m.View(r, PageOf(at))), false, false)
    ensures res == BadAddress ==> !HasRights(old(u.m.View(r, PageOf(at))), false, false)
  {
    RangeOfCall(addr, length);
    res, n, at := ProtectPages(u.m, r, PageStart(addr), addr + PaddedLength(addr, length), wr, ex);
    SucceedsIff(old(u.m.tables), u.m.roots, u.m.tables, r, PageStart(addr), n, PagesVisited(addr, length), res, wr, ex);
    PromisesSurvive(old(u.m.tables), u.m.roots, u.m.tables, u.m.data, u.owned, r, PageOf(PageStart(addr)), n, wr, ex);
  }
}
