/**
  Mapping and finding pages (src/memory/mm_page.c) on top of the frame allocator.

  A frame in use is either a table (in `tables`) or holds bytes (in `data`); the two never overlap,
  which is what lets the model keep them apart although both live in one physical memory.
 */
module VirtualMemory {
  import opened Arithmetic
  import opened Common
  import opened PageTables
  import opened PhysicalMemory

  const FRAMES := 0x100_0000_0000 // the frame field of an entry has 40 bits

  ghost predicate Rooted(pl: Places, roots: set<nat>) {
    forall r :: r in roots ==> IsRoot(pl, r)
  }

  /** Every page of every address space translates as before. */
  ghost predicate SameView(ts: Tables, roots: set<nat>, ts': Tables) {
    forall r: nat, v: nat {:trigger Lookup(ts', r, 4, v)} :: r in roots && v < PAGES ==>
      Lookup(ts', r, 4, v) == Lookup(ts, r, 4, v)
  }

  /** Page v of address space r now has leaf entry e; everything else translates as before. */
  ghost predicate OnePageSet(ts: Tables, roots: set<nat>, ts': Tables, r: nat, v: nat, e: Entry) {
    forall r': nat, v': nat {:trigger Lookup(ts', r', 4, v')} :: r' in roots && v' < PAGES ==>
      Lookup(ts', r', 4, v') == if r' == r && v' == v then (if e.present then Some(e) else None)
        else Lookup(ts, r', 4, v')
  }

  /** How far page v lies behind page `base`, counting around the 48-bit address space. */
  function Offset(base: nat, v: nat): (o: nat)
    requires base < PAGES && v < PAGES
    ensures o < PAGES
  {
    (v + PAGES - base) % PAGES
  }

  /** The first k pages from `base` on map to consecutive frames; everything else is as before. */
  ghost predicate RangeMapped(ts: Tables, roots: set<nat>, ts': Tables, r: nat, base: nat, k: nat, frame: nat,
                              flags: Entry)
    requires base < PAGES
  {
    forall r': nat, v: nat {:trigger Lookup(ts', r', 4, v)} :: r' in roots && v < PAGES ==>
      Lookup(ts', r', 4, v) ==
        if r' == r && Offset(base, v) < k then Some(flags.(frame := (frame + Offset(base, v)) % FRAMES))
        else Lookup(ts, r', 4, v)
  }

  lemma StoreLeaf(ts: Tables, pl: Places, roots: set<nat>, g: nat, r: nat, v: nat, e: Entry)
    requires WellPlaced(ts, pl) && Rooted(pl, roots) && IsRoot(pl, r) && v < PAGES
    requires Reaches(ts, pl, r, v, g) && pl[g].level == 1
    ensures WellPlaced(PutEntry(ts, g, Idx(v, 1), e), pl)
    ensures OnePageSet(ts, roots, PutEntry(ts, g, Idx(v, 1), e), r, v, e)
  {
    var ts' := PutEntry(ts, g, Idx(v, 1), e);
    FlagsKeepPlaces(ts, pl, g, Idx(v, 1), e);
    forall r': nat, v': nat | r' in roots && v' < PAGES
      ensures Lookup(ts', r', 4, v') == if r' == r && v' == v then (if e.present then Some(e) else None)
                else Lookup(ts, r', 4, v')
    {
      RootServes(pl, r', v');
      if r' == r && v' == v {
        ReachedLeaf(ts, pl, r, v, g, e);
      } else {
        if UsesSlot(pl, g, Idx(v, 1), r', v') {
          LeafSlotIsPrivate(pl, g, Idx(v, 1), r, v, r', v');
        }
        LookupElsewhere(ts, pl, r', v', g, Idx(v, 1), e);
      }
    }
  }

  /** The walk for page v from root r passes through table g. */
  ghost predicate Reaches(ts: Tables, pl: Places, r: nat, v: nat, g: nat) {
    && g in pl && r in pl && Serves(pl, g, v) && pl[g].root == r && 1 <= pl[g].level <= 4
    && Walk(ts, r, 4, v, pl[g].level) == Some(g)
  }

  /** The table of level `stop` on the walk for page v from table f of level l. */
  function Walk(ts: Tables, f: nat, l: nat, v: nat, stop: nat): Option<nat>
    requires 1 <= stop <= l <= 4
    decreases l
  {
    if l == stop then Some(f)
    else if f !in ts || |ts[f]| != 512 || !ts[f][Idx(v, l)].present then None
    else Walk(ts, ts[f][Idx(v, l)].frame, l - 1, v, stop)
  }

  lemma {:induction false} ReachedFrom(ts: Tables, pl: Places, f: nat, v: nat, g: nat, e: Entry)
    requires WellPlaced(ts, pl) && Serves(pl, f, v) && g in pl && pl[g].level == 1
    requires Walk(ts, f, pl[f].level, v, 1) == Some(g)
    ensures Lookup(PutEntry(ts, g, Idx(v, 1), e), f, pl[f].level, v) == if e.present then Some(e) else None
    decreases pl[f].level
  {
    if pl[f].level > 1 {
      ChildServes(ts, pl, f, v);
      ReachedFrom(ts, pl, ts[f][Idx(v, pl[f].level)].frame, v, g, e);
    }
  }

  lemma ReachedLeaf(ts: Tables, pl: Places, r: nat, v: nat, g: nat, e: Entry)
    requires WellPlaced(ts, pl) && IsRoot(pl, r) && v < PAGES && Reaches(ts, pl, r, v, g) && pl[g].level == 1
    ensures Lookup(PutEntry(ts, g, Idx(v, 1), e), r, 4, v) == if e.present then Some(e) else None
  {
    RootServes(pl, r, v);
    ReachedFrom(ts, pl, r, v, g, e);
  }

  lemma {:induction false} WalkKept(ts: Tables, pl: Places, ts': Tables, f: nat, v: nat, stop: nat)
    requires WellPlaced(ts, pl) && Serves(pl, f, v) && 1 <= stop <= pl[f].level
    requires forall h :: h in pl && pl[h].level > stop ==> h in ts' && ts'[h] == ts[h]
    ensures Walk(ts', f, pl[f].level, v, stop) == Walk(ts, f, pl[f].level, v, stop)
    decreases pl[f].level
  {
    if pl[f].level > stop && ts[f][Idx(v, pl[f].level)].present {
      ChildServes(ts, pl, f, v);
      WalkKept(ts, pl, ts', ts[f][Idx(v, pl[f].level)].frame, v, stop);
    }
  }

  lemma {:induction false} WalkDown(ts: Tables, f: nat, l: nat, v: nat, stop: nat, g: nat)
    requires 2 <= stop <= l <= 4 && Walk(ts, f, l, v, stop) == Some(g)
    requires g in ts && |ts[g]| == 512 && ts[g][Idx(v, stop)].present
    ensures Walk(ts, f, l, v, stop - 1) == Some(ts[g][Idx(v, stop)].frame)
    decreases l
  {
    if l > stop {
      WalkDown(ts, ts[f][Idx(v, l)].frame, l - 1, v, stop, g);
    }
  }

  /** After slot (g, Idx(v)) has been made to point at table c, the walk for v reaches c. */
  lemma ReachesNext(ts: Tables, pl: Places, ts': Tables, pl': Places, r: nat, v: nat, g: nat)
    requires WellPlaced(ts, pl) && IsRoot(pl, r) && v < PAGES && Reaches(ts, pl, r, v, g) && pl[g].level > 1
    requires WellPlaced(ts', pl') && r in pl' && g in pl' && pl'[g] == pl[g]
    requires forall h :: h in pl && h != g ==> h in ts' && ts'[h] == ts[h]
    requires ts'[g][Idx(v, pl[g].level)].present
    ensures Reaches(ts', pl', r, v, ts'[g][Idx(v, pl[g].level)].frame)
    ensures pl'[ts'[g][Idx(v, pl[g].level)].frame].level == pl[g].level - 1
  {
    RootServes(pl, r, v);
    WalkKept(ts, pl, ts', r, v, pl[g].level);
    WalkDown(ts', r, 4, v, pl[g].level, g);
    assert Serves(pl', g, v);
    ChildServes(ts', pl', g, v);
  }

  lemma RootReaches(ts: Tables, pl: Places, r: nat, v: nat)
    requires WellPlaced(ts, pl) && IsRoot(pl, r) && v < PAGES
    ensures Reaches(ts, pl, r, v, r)
  {
    RootServes(pl, r, v);
  }

  /** A present directory entry on the walk whose flags change, or an absent one that gets a fresh table. */
  lemma DirectoryStore(ts: Tables, pl: Places, roots: set<nat>, g: nat, i: nat, e: Entry)
    requires WellPlaced(ts, pl) && Rooted(pl, roots) && g in pl && i < 512 && pl[g].level > 1
    ensures e.present == ts[g][i].present && e.frame == ts[g][i].frame ==>
              WellPlaced(PutEntry(ts, g, i, e), pl) && SameView(ts, roots, PutEntry(ts, g, i, e))
    ensures !ts[g][i].present && e.present && e.frame !in pl ==>
              && WellPlaced(Grow(ts, g, i, e), GrowPlaces(pl, g, i, e.frame))
              && SameView(ts, roots, Grow(ts, g, i, e))
  {
    if e.present == ts[g][i].present && e.frame == ts[g][i].frame {
      FlagsKeepPlaces(ts, pl, g, i, e);
      forall r: nat, v: nat | r in roots && v < PAGES
        ensures Lookup(PutEntry(ts, g, i, e), r, 4, v) == Lookup(ts, r, 4, v)
      {
        RootServes(pl, r, v);
        LookupFlags(ts, pl, r, v, g, i, e);
      }
    }
    if !ts[g][i].present && e.present && e.frame !in pl {
      GrowKeepsPlaces(ts, pl, g, i, e);
      forall r: nat, v: nat | r in roots && v < PAGES
        ensures Lookup(Grow(ts, g, i, e), r, 4, v) == Lookup(ts, r, 4, v)
      {
        RootServes(pl, r, v);
        LookupGrow(ts, pl, r, v, g, i, e);
      }
    }
  }

  lemma NewTable(ts: Tables, pl: Places, roots: set<nat>, g: nat, i: nat, e: Entry, r: nat, v: nat)
    requires WellPlaced(ts, pl) && Rooted(pl, roots) && r in roots && v < PAGES && Reaches(ts, pl, r, v, g)
    requires pl[g].level > 1 && i == Idx(v, pl[g].level) && !ts[g][i].present && e.present && e.frame !in pl
    ensures var ts', pl' := Grow(ts, g, i, e), GrowPlaces(pl, g, i, e.frame);
            && WellPlaced(ts', pl') && Rooted(pl', roots) && SameView(ts, roots, ts') &&
               Reaches(ts', pl', r, v, e.frame)
            && e.frame in pl' && pl'[e.frame].level == pl[g].level - 1 && ts'.Keys == ts.Keys + {e.frame}
  {
    DirectoryStore(ts, pl, roots, g, i, e);
    ReachesNext(ts, pl, Grow(ts, g, i, e), GrowPlaces(pl, g, i, e.frame), r, v, g);
  }

  lemma SameViewThenPage(ts: Tables, roots: set<nat>, ts1: Tables, ts2: Tables, r: nat, v: nat, e: Entry)
    requires SameView(ts, roots, ts1) && OnePageSet(ts1, roots, ts2, r, v, e)
    ensures OnePageSet(ts, roots, ts2, r, v, e)
  {
    forall r': nat, v': nat | r' in roots && v' < PAGES
      ensures Lookup(ts2, r', 4, v') == if r' == r && v' == v then (if e.present then Some(e) else None)
                else Lookup(ts, r', 4, v')
    {
      assert Lookup(ts1, r', 4, v') == Lookup(ts, r', 4, v');
    }
  }

  lemma OffsetOf(virt: nat, k: nat)
    requires k < PAGES
    ensures Offset(PageOf(virt), PageOf((virt + k * PAGE_LEN) % WORD)) == k
  {
    AddMulDiv(k, PAGE_LEN, virt);
    WordPage(virt + k * PAGE_LEN);
    AroundTheRing(virt / PAGE_LEN, k);
  }

  lemma AroundTheRing(x: nat, k: nat)
    requires k < PAGES
    ensures ((x + k) % PAGES + PAGES - x % PAGES) % PAGES == k
  {
    var b := x % PAGES;
    if b + k < PAGES {
      assert (x + k) % PAGES == b + k;
    } else {
      assert (x + k) % PAGES == b + k - PAGES;
    }
  }

  /** Wrapping an address to 64 bits changes neither its page nor its 40-bit frame number. */
  lemma WordPage(a: nat)
    ensures a % WORD / PAGE_LEN % PAGES == a / PAGE_LEN % PAGES
    ensures a % WORD / PAGE_LEN % FRAMES == a / PAGE_LEN % FRAMES
  {
    DigitAfterMod(a, PAGE_LEN, PAGES, 0x1_0000);
    DigitAfterMod(a, PAGE_LEN, FRAMES, 0x1000);
  }

  lemma NthFrame(phys: nat, i: nat, n: nat)
    requires i == n * PAGE_LEN
    ensures (phys + i) % WORD / PAGE_LEN % FRAMES == (phys / PAGE_LEN + n) % FRAMES
  {
    WordPage(phys + i);
    AddMulDiv(n, PAGE_LEN, phys);
  }

  lemma OffsetInjective(base: nat, v: nat, w: nat)
    requires base < PAGES && v < PAGES && w < PAGES && Offset(base, v) == Offset(base, w)
    ensures v == w
  {
  }

  lemma NextOfRange(ts: Tables, roots: set<nat>, ts1: Tables, ts2: Tables,
                    r: nat, base: nat, k: nat, page: nat, frame: nat, flags: Entry)
    requires base < PAGES && page < PAGES && Offset(base, page) == k && flags.present
    requires RangeMapped(ts, roots, ts1, r, base, k, frame, flags)
    requires OnePageSet(ts1, roots, ts2, r, page, flags.(frame := (frame + k) % FRAMES))
    ensures RangeMapped(ts, roots, ts2, r, base, k + 1, frame, flags)
  {
    forall r': nat, v: nat | r' in roots && v < PAGES
      ensures Lookup(ts2, r', 4, v) ==
                if r' == r && Offset(base, v) < k + 1 then Some(flags.(frame := (frame + Offset(base, v)) % FRAMES))
                else Lookup(ts, r', 4, v)
    {
      var before := Lookup(ts1, r', 4, v);
      if Offset(base, v) == k {
        OffsetInjective(base, v, page);
      }
    }
  }

  lemma MapOneMore(ts: Tables, roots: set<nat>, ts1: Tables, ts2: Tables,
                   r: nat, virt: nat, k: nat, frame: nat, flags: Entry)
    requires k < PAGES && flags.present
    requires RangeMapped(ts, roots, ts1, r, PageOf(virt), k, frame, flags)
    requires OnePageSet(ts1, roots, ts2, r, PageOf((virt + k * PAGE_LEN) % WORD), flags.(frame := (frame + k) % FRAMES))
    ensures RangeMapped(ts, roots, ts2, r, PageOf(virt), k + 1, frame, flags)
  {
    OffsetOf(virt, k);
    NextOfRange(ts, roots, ts1, ts2, r, PageOf(virt), k, PageOf((virt + k * PAGE_LEN) % WORD), frame, flags);
  }

  lemma StillMapped(ts: Tables, roots: set<nat>, ts1: Tables, ts2: Tables, r: nat, base: nat, k: nat, frame: nat,
                    flags: Entry)
    requires base < PAGES && RangeMapped(ts, roots, ts1, r, base, k, frame, flags) && SameView(ts1, roots, ts2)
    ensures RangeMapped(ts, roots, ts2, r, base, k, frame, flags)
  {
    forall r': nat, v: nat | r' in roots && v < PAGES
      ensures Lookup(ts2, r', 4, v) ==
                if r' == r && Offset(base, v) < k then Some(flags.(frame := (frame + Offset(base, v)) % FRAMES))
                else Lookup(ts, r', 4, v)
    {
      var before := Lookup(ts1, r', 4, v);
    }
  }

  /** Pages touched by len bytes in steps of a page. */
  function PagesIn(len: nat): nat {
    (len + PAGE_LEN - 1) / PAGE_LEN
  }

  datatype Step = Down(table: nat) | Absent | OutOfFrames

  class Machine {
    const pmm: FrameAllocator
    var tables: Tables
    var data: map<nat, seq<Byte>>
    ghost var place: Places
    ghost var roots: set<nat> // the pml4 of each address space

    ghost predicate Valid()
      reads this, pmm
    {
      && pmm.Valid() && WellPlaced(tables, place) && Rooted(place, roots)
      && (forall f :: f in tables ==> f !in pmm.unused)
      && (forall f :: f in data ==> |data[f]| == PAGE_LEN && f !in pmm.unused && f !in tables)
    }

    constructor (frames: FrameAllocator)
      requires frames.Valid()
      ensures Valid() && pmm == frames && tables == map[] && data == map[] && roots == {}
    {
      pmm := frames;
      tables, data, place, roots := map[], map[], map[], {};
    }

    /** The number of a frame that serves as nothing yet; 0 when there is none. */
    method TakeFrame() returns (c: nat)
      requires Valid() && !pmm.locked
      modifies pmm
      ensures Valid() && pmm.unused <= old(pmm.unused)
      ensures if c == 0 then pmm.locked && pmm.free == [] else !pmm.locked && old(pmm.free) != []
      ensures c != 0 ==> c == old(pmm.free)[0] && c !in place && c !in tables && c !in data && c !in pmm.unused
    {
      var phys := pmm.FindNextFreeFrame();
      c := phys / PAGE_LEN;
    }

    /** A frame cleared to serve as the pml4 of a new address space; 0 when there is none. */
    method NewRoot() returns (r: nat)
      requires Valid() && !pmm.locked
      modifies this`tables, this`place, this`roots, pmm
      ensures Valid() && (r == 0 <==> pmm.locked)
      ensures r == 0 ==> roots == old(roots) && tables == old(tables)
      ensures r != 0 ==> r !in old(roots) && roots == old(roots) + {r} && NothingMapped(tables, r)
      ensures SameView(old(tables), old(roots), tables)
    {
      r := TakeFrame();
      if r != 0 {
        NewRootView(tables, place, roots, r);
        NewRootKeepsPlaces(tables, place, r);
        tables, place, roots := tables[r := ZeroTable()], place[r := Place(r, 4, 0)], roots + {r};
      }
    }

    /** Page v of address space r: its leaf entry, if some level is not missing. */
    ghost function View(r: nat, v: nat): Option<Entry>
      reads this
    {
      Lookup(tables, r, 4, v)
    }

    /** Widens the entry that leads to the next table, for the user. */
    method EnterTable(g: nat, i: nat, ghost r: nat, ghost v: nat, user: bool)
      requires Valid() && r in roots && v < PAGES && Reaches(tables, place, r, v, g)
      requires place[g].level > 1 && i == Idx(v, place[g].level) && tables[g][i].present
      modifies this`tables
      ensures Valid() && SameView(old(tables), roots, tables)
      ensures var c := old(tables)[g][i].frame; Reaches(tables, place, r, v, c) && place[c].level == place[g].level - 1
    {
      var e := tables[g][i];
      var e' := if user then e.(user := true) else e;
      DirectoryStore(tables, place, roots, g, i, e');
      tables := PutEntry(tables, g, i, e');
      ReachesNext(old(tables), place, tables, place, r, v, g);
    }

    /**
      One level of the walk: follow the entry for page v in table g, or hang a fresh zeroed table
      there.  Translations do not change, whichever it is.
     */
    method NextTable(g: nat, i: nat, ghost r: nat, ghost v: nat, autocreate: bool, user: bool, flags: Entry)
      returns (w: Step)
      requires Valid() && !pmm.locked && r in roots && v < PAGES
      requires Reaches(tables, place, r, v, g) && place[g].level > 1 && i == Idx(v, place[g].level) && flags.present
      modifies this`tables, this`place, pmm
      ensures Valid() && SameView(old(tables), roots, tables) && pmm.unused <= old(pmm.unused)
      ensures w.Down? ==> !pmm.locked && Reaches(tables, place, r, v, w.table) &&
                          place[w.table].level == old(place)[g].level - 1
      ensures w.Absent? ==> !autocreate && !pmm.locked && tables == old(tables) && place == old(place) &&
                            Lookup(tables, r, 4, v) == None
      ensures w.OutOfFrames? ==> autocreate && pmm.locked && pmm.free == [] && tables == old(tables) &&
                                 place == old(place) && Lookup(tables, r, 4, v) == None
      ensures !autocreate || old(Lookup(tables, r, 4, v)).Some? ==>
                pmm.free == old(pmm.free) && pmm.unused == old(pmm.unused) && place == old(place)
    {
      var e := tables[g][i];
      if !e.present {
        AbsentMeansUnmapped(tables, place, r, v, g);
        if !autocreate {
          return Absent;
        }
        w := HangTable(g, i, r, v, flags);
      } else {
        EnterTable(g, i, r, v, user);
        w := Down(e.frame);
      }
    }

    /** Hangs frame c, cleared, under slot i of g. */
    method AttachTable(g: nat, i: nat, c: nat, ghost r: nat, ghost v: nat, flags: Entry)
      requires Valid() && r in roots && v < PAGES && Reaches(tables, place, r, v, g)
      requires place[g].level > 1 && i == Idx(v, place[g].level) && flags.present && !tables[g][i].present
      requires c !in place && c !in data && c !in pmm.unused
      modifies this`tables, this`place
      ensures Valid() && SameView(old(tables), roots, tables)
      ensures Reaches(tables, place, r, v, c) && place[c].level == old(place)[g].level - 1
    {
      NewTable(tables, place, roots, g, i, flags.(frame := c), r, v);
      tables, place := Grow(tables, g, i, flags.(frame := c)), GrowPlaces(place, g, i, c);
    }

    /** alloc_func and the store that hangs its table under slot i of g. */
    method HangTable(g: nat, i: nat, ghost r: nat, ghost v: nat, flags: Entry) returns (w: Step)
      requires Valid() && !pmm.locked && r in roots && v < PAGES
      requires Reaches(tables, place, r, v, g) && place[g].level > 1 && i == Idx(v, place[g].level) && flags.present
      requires !tables[g][i].present
      modifies this`tables, this`place, pmm
      ensures Valid() && SameView(old(tables), roots, tables) && pmm.unused <= old(pmm.unused)
      ensures w.Down? ==> !pmm.locked && Reaches(tables, place, r, v, w.table) &&
                          place[w.table].level == old(place)[g].level - 1
      ensures !w.Absent?
      ensures w.OutOfFrames? ==> pmm.locked && pmm.free == [] && tables == old(tables) && place == old(place)
    {
      var c := TakeFrame();
      if c == 0 {
        return OutOfFrames;
      }
      AttachTable(g, i, c, r, v, flags);
      w := Down(c);
    }

    /** The pml4 and pdpt levels for address a. */
    method DirectoryTable(r: nat, a: nat, autocreate: bool, user: bool, flags: Entry) returns (w: Step)
      requires Valid() && !pmm.locked && r in roots && flags.present
      modifies this`tables, this`place, pmm
      ensures Valid() && SameView(old(tables), roots, tables) && pmm.unused <= old(pmm.unused)
      ensures w.Down? ==> !pmm.locked && Reaches(tables, place, r, PageOf(a), w.table) && place[w.table].level == 2
      ensures w.Absent? ==> !autocreate && !pmm.locked && Lookup(tables, r, 4, PageOf(a)) == None
      ensures w.OutOfFrames? ==> autocreate && pmm.locked && pmm.free == [] && Lookup(tables, r, 4, PageOf(a)) == None
      ensures !autocreate || old(Lookup(tables, r, 4, PageOf(a))).Some? ==>
                pmm.free == old(pmm.free) && pmm.unused == old(pmm.unused) && place == old(place)
    {
      ghost var v := PageOf(a);
      var (i4, i3, i2, i1) := AddrSplit(a);
      AddrSplitIsIdx(a);
      RootReaches(tables, place, r, v);
      w := NextTable(r, i4, r, v, autocreate, user, flags);
      if w.Down? {
        w := NextTable(w.table, i3, r, v, autocreate, user, flags);
      }
    }

    /** All three directory levels for address a: the page table that serves it, if there is one. */
    method LeafTable(r: nat, a: nat, autocreate: bool, user: bool, flags: Entry) returns (w: Step)
      requires Valid() && !pmm.locked && r in roots && flags.present
      modifies this`tables, this`place, pmm
      ensures Valid() && SameView(old(tables), roots, tables) && pmm.unused <= old(pmm.unused)
      ensures w.Down? ==> !pmm.locked && Reaches(tables, place, r, PageOf(a), w.table) && place[w.table].level == 1
      ensures w.Absent? ==> !autocreate && !pmm.locked && Lookup(tables, r, 4, PageOf(a)) == None
      ensures w.OutOfFrames? ==> autocreate && pmm.locked && pmm.free == [] && Lookup(tables, r, 4, PageOf(a)) == None
      ensures !autocreate || old(Lookup(tables, r, 4, PageOf(a))).Some? ==>
                pmm.free == old(pmm.free) && pmm.unused == old(pmm.unused) && place == old(place)
    {
      w := DirectoryTable(r, a, autocreate, user, flags);
      if w.Down? {
        var (i4, i3, i2, i1) := AddrSplit(a);
        AddrSplitIsIdx(a);
        w := NextTable(w.table, i2, r, PageOf(a), autocreate, user, flags);
      }
    }

    /** The body of map_virtual_memory_using_alloc for one page. */
    method MapPage(r: nat, a: nat, e: Entry) returns (ok: bool)
      requires Valid() && !pmm.locked && r in roots && e.present
      modifies this`tables, this`place, pmm
      ensures Valid()
      ensures ok ==> !pmm.locked && OnePageSet(old(tables), roots, tables, r, PageOf(a), e)
      ensures !ok ==> pmm.locked && pmm.free == [] && SameView(old(tables), roots, tables) &&
                      old(View(r, PageOf(a))) == None
      ensures old(View(r, PageOf(a))).Some? ==> pmm.free == old(pmm.free) && pmm.unused == old(pmm.unused)
    {
      var w := LeafTable(r, a, true, e.user, e);
      if w.OutOfFrames? {
        return false;
      }
      var (i4, i3, i2, i1) := AddrSplit(a);
      AddrSplitIsIdx(a);
      ghost var ts1 := tables;
      SetLeaf(r, PageOf(a), w.table, i1, e);
      SameViewThenPage(old(tables), roots, ts1, tables, r, PageOf(a), e);
      return true;
    }

    /** The store into the leaf slot of page v. */
    method SetLeaf(ghost r: nat, ghost v: nat, g: nat, i: nat, e: Entry)
      requires Valid() && r in roots && v < PAGES && Reaches(tables, place, r, v, g) && place[g].level == 1 &&
               i == Idx(v, 1)
      modifies this`tables
      ensures Valid() && tables.Keys == old(tables.Keys) && g in tables && i < |tables[g]| && tables[g][i] == e
      ensures OnePageSet(old(tables), roots, tables, r, v, e)
    {
      StoreLeaf(tables, place, roots, g, r, v, e);
      tables := PutEntry(tables, g, i, e);
    }

    /**
      map_virtual_memory_using_alloc: maps the pages of [virt, virt + len) to consecutive frames
      and leaves every other translation of every address space alone.  When the frames for new
      tables run out, exactly the first n pages are mapped (and the kernel faults on the next).
     */
    method MapRange(r: nat, phys: nat, virt: nat, len: nat, flags: Entry) returns (ok: bool, ghost n: nat)
      requires Valid() && !pmm.locked && r in roots && flags.present && len <= PAGES * PAGE_LEN
      modifies this`tables, this`place, pmm
      ensures Valid()
      ensures RangeMapped(old(tables), roots, tables, r, PageOf(virt), n, phys / PAGE_LEN, flags)
      ensures if ok then n == PagesIn(len) && !pmm.locked else n < PagesIn(len) && pmm.locked && pmm.free == []
    {
      var i := 0;
      n := 0;
      while i < len
        invariant Valid() && !pmm.locked
        invariant i == n * PAGE_LEN && n <= PagesIn(len)
        invariant RangeMapped(old(tables), roots, tables, r, PageOf(virt), n, phys / PAGE_LEN, flags)
      {
        ok := MapNth(r, phys, virt, i, flags, n, old(tables));
        if !ok {
          return;
        }
        i := i + PAGE_LEN;
        n := n + 1;
      }
      return true, n;
    }

    method MapNth(r: nat, phys: nat, virt: nat, i: nat, flags: Entry, ghost n: nat, ghost ts: Tables) returns (ok: bool)
      requires Valid() && !pmm.locked && r in roots && flags.present && n < PAGES && i == n * PAGE_LEN
      requires RangeMapped(ts, roots, tables, r, PageOf(virt), n, phys / PAGE_LEN, flags)
      modifies this`tables, this`place, pmm
      ensures Valid()
      ensures RangeMapped(ts, roots, tables, r, PageOf(virt), if ok then n + 1 else n, phys / PAGE_LEN, flags)
      ensures if ok then !pmm.locked else pmm.locked && pmm.free == []
    {
      var e := flags.(frame := (phys + i) % WORD / PAGE_LEN % FRAMES);
      NthFrame(phys, i, n);
      assert e == flags.(frame := (phys / PAGE_LEN + n) % FRAMES);
      ok := MapPage(r, (virt + i) % WORD, e);
      if ok {
        MapOneMore(ts, roots, old(tables), tables, r, virt, n, phys / PAGE_LEN, flags);
      } else {
        StillMapped(ts, roots, old(tables), tables, r, PageOf(virt), n, phys / PAGE_LEN, flags);
      }
    }

    /** alloc_page_frame: gives page v a frame; without one the page is marked present at frame 0. */
    method LeafFrame(ghost r: nat, ghost v: nat, g: nat, i: nat, user: bool) returns (got: bool, e: Entry)
      requires Valid() && !pmm.locked && r in roots && v < PAGES && Reaches(tables, place, r, v, g)
      requires place[g].level == 1 && i == Idx(v, 1)
      modifies this`tables, pmm
      ensures Valid() && g in tables && i < |tables[g]| && tables[g][i] == e &&
              e == Entry(true, true, user, false, e.frame)
      ensures if got then !pmm.locked && e.frame in old(pmm.unused) - pmm.unused else pmm.locked && e.frame == 0
      ensures OnePageSet(old(tables), roots, tables, r, v, e)
    {
      var phys := pmm.FindNextFreeFrame();
      got, e := phys != 0, Entry(true, true, user, false, phys / PAGE_LEN);
      StoreLeaf(tables, place, roots, g, r, v, e);
      tables := PutEntry(tables, g, i, e);
    }

    /**
      find_page_using_alloc: the leaf slot of address a.  Without autocreate no translation changes
      and the slot is found exactly when the page is mapped; with it, the slot is found unless
      frames run out, and at most page a's own translation changes, from none to an unused frame.
     */
    method FindPage(r: nat, a: nat, autocreate: bool, user: bool) returns (page: Option<(nat, nat)>)
      requires Valid() && !pmm.locked && r in roots
      modifies this`tables, this`place, pmm
      ensures Valid()
      ensures old(Lookup(tables, r, 4, PageOf(a))).Some? || !autocreate ==>
                SameView(old(tables), roots, tables)
      ensures exists e :: OnePageSet(old(tables), roots, tables, r, PageOf(a), e)
      ensures !autocreate ==>
                && (page.Some? <==> old(Lookup(tables, r, 4, PageOf(a))).Some?)
                && pmm.free == old(pmm.free) && pmm.unused == old(pmm.unused) && !pmm.locked && place == old(place)
      ensures page.Some? ==>
                && page.value.0 in tables && page.value.1 < |tables[page.value.0]|
                && Lookup(tables, r, 4, PageOf(a)) == Some(tables[page.value.0][page.value.1])
                && (old(Lookup(tables, r, 4, PageOf(a))) == None ==>
                      tables[page.value.0][page.value.1].frame in old(pmm.unused) - pmm.unused)
      ensures autocreate ==> (page.Some? <==> !pmm.locked)
    {
      var w := LeafTable(r, a, autocreate, user, Entry(true, true, false, false, 0));
      ghost var v := PageOf(a);
      if !w.Down? {
        SameViewIsOnePage(old(tables), roots, tables, r, v);
        return None;
      }
      var (i4, i3, i2, i1) := AddrSplit(a);
      AddrSplitIsIdx(a);
      LeafIsLookup(tables, place, r, v, w.table);
      if !tables[w.table][i1].present {
        if !autocreate {
          SameViewIsOnePage(old(tables), roots, tables, r, v);
          return None;
        }
        ghost var ts1 := tables;
        var got, e := LeafFrame(r, v, w.table, i1, user);
        SameViewThenPage(old(tables), roots, ts1, tables, r, v, e);
        return if got then Some((w.table, i1)) else None;
      }
      SameViewIsOnePage(old(tables), roots, tables, r, v);
      return Some((w.table, i1));
    }
  }

  ghost predicate NothingMapped(ts: Tables, r: nat) {
    forall v: nat {:trigger Lookup(ts, r, 4, v)} :: v < PAGES ==> Lookup(ts, r, 4, v) == None
  }

  lemma NewRootView(ts: Tables, pl: Places, roots: set<nat>, r: nat)
    requires WellPlaced(ts, pl) && Rooted(pl, roots) && r !in pl
    ensures SameView(ts, roots, ts[r := ZeroTable()]) && NothingMapped(ts[r := ZeroTable()], r)
  {
    var ts' := ts[r := ZeroTable()];
    forall r': nat, v: nat | r' in roots && v < PAGES
      ensures Lookup(ts', r', 4, v) == Lookup(ts, r', 4, v)
    {
      RootServes(pl, r', v);
      LookupNewRoot(ts, pl, r', v, r);
    }
  }

  lemma {:induction false} AbsentFrom(ts: Tables, pl: Places, f: nat, v: nat, g: nat, stop: nat)
    requires WellPlaced(ts, pl) && Serves(pl, f, v) && 1 <= stop <= pl[f].level
    requires Walk(ts, f, pl[f].level, v, stop) == Some(g) && g in ts && |ts[g]| == 512 && !ts[g][Idx(v, stop)].present
    ensures Lookup(ts, f, pl[f].level, v) == None
    decreases pl[f].level
  {
    if pl[f].level > stop {
      ChildServes(ts, pl, f, v);
      AbsentFrom(ts, pl, ts[f][Idx(v, pl[f].level)].frame, v, g, stop);
    }
  }

  lemma AbsentMeansUnmapped(ts: Tables, pl: Places, r: nat, v: nat, g: nat)
    requires WellPlaced(ts, pl) && IsRoot(pl, r) && v < PAGES && Reaches(ts, pl, r, v, g)
    requires !ts[g][Idx(v, pl[g].level)].present
    ensures Lookup(ts, r, 4, v) == None
  {
    RootServes(pl, r, v);
    AbsentFrom(ts, pl, r, v, g, pl[g].level);
  }

  lemma SameViewIsOnePage(ts: Tables, roots: set<nat>, ts': Tables, r: nat, v: nat)
    requires SameView(ts, roots, ts') && r in roots && v < PAGES
    ensures exists e :: OnePageSet(ts, roots, ts', r, v, e)
  {
    var e := match Lookup(ts', r, 4, v) case None => EMPTY case Some(x) => x;
    PresentLeaf(ts', r, 4, v);
    assert OnePageSet(ts, roots, ts', r, v, e);
  }

  lemma {:induction false} PresentLeaf(ts: Tables, f: nat, l: nat, v: nat)
    requires 1 <= l <= 4
    ensures Lookup(ts, f, l, v).Some? ==> Lookup(ts, f, l, v).value.present
    decreases l
  {
    if l > 1 && f in ts && |ts[f]| == 512 {
      PresentLeaf(ts, ts[f][Idx(v, l)].frame, l - 1, v);
    }
  }

  lemma LeafIsLookup(ts: Tables, pl: Places, r: nat, v: nat, g: nat)
    requires WellPlaced(ts, pl) && IsRoot(pl, r) && v < PAGES && Reaches(ts, pl, r, v, g) && pl[g].level == 1
    ensures var e := ts[g][Idx(v, 1)];
            Lookup(ts, r, 4, v) == if e.present then Some(e) else None
  {
    var e := ts[g][Idx(v, 1)];
    ReachedLeaf(ts, pl, r, v, g, e);
    assert ts[g][Idx(v, 1) := e] == ts[g];
    assert PutEntry(ts, g, Idx(v, 1), e) == ts;
  }

  const SPACE := 0x1_0000_0000_0000 // 48-bit addresses

  lemma SpacePage(a: nat)
    ensures PageOf(a) == a % SPACE / PAGE_LEN && a % PAGE_LEN == a % SPACE % PAGE_LEN
  {
  }

  lemma RangeArithmetic(virt: nat, a: nat, len: nat)
    requires virt % PAGE_LEN == 0 && len % PAGE_LEN == 0 && virt + len <= SPACE && a < SPACE && virt < SPACE
    ensures var k := Offset(virt / PAGE_LEN, a / PAGE_LEN);
            && (k < PagesIn(len) <==> virt <= a < virt + len)
            && (virt <= a ==> k * PAGE_LEN + a % PAGE_LEN == a - virt)
  {
  }

  lemma FrameInRange(phys: nat, virt: nat, a: nat, len: nat, k: nat)
    requires phys % PAGE_LEN == 0 && phys + len <= FRAMES * PAGE_LEN && virt <= a < virt + len
    requires k * PAGE_LEN + a % PAGE_LEN == a - virt
    ensures (phys / PAGE_LEN + k) % FRAMES * PAGE_LEN + a % PAGE_LEN == phys + (a - virt)
  {
    DivMod(phys, PAGE_LEN);
    Distribute(phys / PAGE_LEN, k, PAGE_LEN);
    DivBelow((phys / PAGE_LEN + k) * PAGE_LEN, PAGE_LEN, FRAMES);
    MulDiv(phys / PAGE_LEN + k, PAGE_LEN);
  }

  /** The translation of a after a range was mapped. */
  lemma RangeLookup(ts: Tables, ts': Tables, roots: set<nat>, r: nat, phys: nat, virt: nat, len: nat, flags: Entry,
                    r': nat, a: nat)
    requires r in roots && r' in roots && phys % PAGE_LEN == 0 && virt % PAGE_LEN == 0 && len % PAGE_LEN == 0
    requires phys + len <= FRAMES * PAGE_LEN && virt % SPACE + len <= SPACE
    requires RangeMapped(ts, roots, ts', r, PageOf(virt), PagesIn(len), phys / PAGE_LEN, flags)
    ensures var e' := Lookup(ts', r', 4, PageOf(a));
            if r' == r && virt % SPACE <= a % SPACE < virt % SPACE + len then
              e'.Some? && e'.value.frame * PAGE_LEN + a % PAGE_LEN == phys + (a % SPACE - virt % SPACE)
            else e' == Lookup(ts, r', 4, PageOf(a))
  {
    SpacePage(a);
    SpacePage(virt);
    RangeArithmetic(virt % SPACE, a % SPACE, len);
    var k := Offset(PageOf(virt), PageOf(a));
    assert Lookup(ts', r', 4, PageOf(a)) ==
             if r' == r && k < PagesIn(len) then Some(flags.(frame := (phys / PAGE_LEN + k) % FRAMES))
             else Lookup(ts, r', 4, PageOf(a));
    if virt % SPACE <= a % SPACE < virt % SPACE + len {
      FrameInRange(phys, virt % SPACE, a % SPACE, len, k);
    }
  }

  /** get_physaddr after mapping: phys + (a - virt) on the range, the old answer everywhere else. */
  lemma PhysaddrAfterMapping(ts: Tables, pl: Places, ts': Tables, pl': Places, roots: set<nat>, r: nat, phys: nat,
                             virt: nat, len: nat, flags: Entry, r': nat, a: nat)
    requires WellPlaced(ts, pl) && WellPlaced(ts', pl') && Rooted(pl, roots) && Rooted(pl', roots)
    requires r in roots && r' in roots && flags.present
    requires phys % PAGE_LEN == 0 && virt % PAGE_LEN == 0 && len % PAGE_LEN == 0 && phys + len <= FRAMES * PAGE_LEN
    requires virt % SPACE + len <= SPACE
    requires RangeMapped(ts, roots, ts', r, PageOf(virt), PagesIn(len), phys / PAGE_LEN, flags)
    ensures r' == r && virt % SPACE <= a % SPACE < virt % SPACE + len ==>
              GetPhysaddr(ts', pl', r', a) == phys + (a % SPACE - virt % SPACE)
    ensures !(r' == r && virt % SPACE <= a % SPACE < virt % SPACE + len) ==>
              GetPhysaddr(ts', pl', r', a) == GetPhysaddr(ts, pl, r', a)
  {
    GetPhysaddrIsLookup(ts, pl, r', a);
    GetPhysaddrIsLookup(ts', pl', r', a);
    RangeLookup(ts, ts', roots, r, phys, virt, len, flags, r', a);
  }
}
