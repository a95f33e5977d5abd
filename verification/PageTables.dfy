/**
  The four-level page tables of src/memory/mm_page.c (section 4.5 of volume 3A of the Intel 64 and
  IA-32 Architectures Software Developer's Manual), as values.

  A table occupies one physical frame and has 512 entries; level 4 is the pml4, level 1 the page
  table.  `Places` is the auxiliary map that says which part of which address space a table serves;
  being a function of the frame, it makes the tables a forest of unshared nodes.
 */
module PageTables {
  import opened Arithmetic
  import opened Common

  const PAGES := 0x10_0000_0000 // 2^36 pages of a 48-bit address space

  /** The fields of dir_entry_t and page_t that the kernel uses. */
  datatype Entry = Entry(present: bool, rw: bool, user: bool, nx: bool, frame: nat)

  const EMPTY := Entry(false, false, false, false, 0)

  type Tables = map<nat, seq<Entry>>
  datatype Place = Place(root: nat, level: nat, prefix: nat)
  type Places = map<nat, Place>

  function ZeroTable(): seq<Entry> {
    seq(512, _ => EMPTY)
  }

  // ---- splitting addresses ----

  /** Pages under one entry of a level-(l+1) table. */
  function Span(l: nat): (n: nat)
    requires l <= 4
    ensures n > 0
  {
    match l
    case 0 => 1
    case 1 => 512
    case 2 => 0x4_0000
    case 3 => 0x800_0000
    case _ => PAGES
  }

  /** The page number of an address; addresses 2^48 apart have the same one. */
  function PageOf(a: nat): (v: nat)
    ensures v < PAGES
  {
    a / PAGE_LEN % PAGES
  }

  function Idx(v: nat, l: nat): (i: nat)
    requires 1 <= l <= 4
    ensures i < 512
  {
    v / Span(l - 1) % 512
  }

  /** Which table of level l serves page v. */
  function Prefix(v: nat, l: nat): nat
    requires l <= 4
  {
    v / Span(l)
  }

  /** addr_split: pml4, pdpt, pd and pt index of an address. */
  function AddrSplit(a: nat): (nat, nat, nat, nat) {
    (a / 0x80_0000_0000 % 512, a / 0x4000_0000 % 512, a / 0x20_0000 % 512, a / 0x1000 % 512)
  }

  lemma AddrSplitIsIdx(a: nat)
    ensures AddrSplit(a) == (Idx(PageOf(a), 4), Idx(PageOf(a), 3), Idx(PageOf(a), 2), Idx(PageOf(a), 1))
  {
    var x := a / PAGE_LEN;
    DigitAfterMod(x, 0x800_0000, 512, 1);
    DigitAfterMod(x, 0x4_0000, 512, 512);
    DigitAfterMod(x, 512, 512, 0x4_0000);
    DigitAfterMod(x, 1, 512, 0x800_0000);
    DivDiv(a, PAGE_LEN, 0x800_0000);
    DivDiv(a, PAGE_LEN, 0x4_0000);
    DivDiv(a, PAGE_LEN, 512);
  }

  lemma PrefixStep(v: nat, l: nat)
    requires 1 <= l <= 4
    ensures Prefix(v, l - 1) == Prefix(v, l) * 512 + Idx(v, l)
  {
    match l
    case 1 =>
    case 2 =>
    case 3 =>
    case _ =>
  }

  // ---- walking ----

  /** The leaf entry of page v, found from table f of level l. */
  function Lookup(ts: Tables, f: nat, l: nat, v: nat): Option<Entry>
    requires 1 <= l <= 4
    decreases l
  {
    if f !in ts || |ts[f]| != 512 || !ts[f][Idx(v, l)].present then None
    else if l == 1 then Some(ts[f][Idx(v, 1)])
    else Lookup(ts, ts[f][Idx(v, l)].frame, l - 1, v)
  }

  ghost predicate Shaped(ts: Tables, pl: Places) {
    && ts.Keys == pl.Keys
    && (forall f {:trigger ts[f]} :: f in pl ==>
          && |ts[f]| == 512 && 1 <= pl[f].level <= 4
          && (pl[f].level == 4 ==> pl[f] == Place(f, 4, 0))
          && pl[f].root in pl && pl[pl[f].root] == Place(pl[f].root, 4, 0))
  }

  /** Every present entry of directory f leads to the table that belongs under that entry. */
  ghost predicate Children(ts: Tables, pl: Places, f: nat)
    requires Shaped(ts, pl) && f in pl
  {
    forall i :: 0 <= i < 512 && pl[f].level > 1 && ts[f][i].present ==>
      ts[f][i].frame in pl && pl[ts[f][i].frame] == Place(pl[f].root, pl[f].level - 1, pl[f].prefix * 512 + i)
  }

  ghost predicate WellPlaced(ts: Tables, pl: Places) {
    Shaped(ts, pl) && forall f {:trigger Children(ts, pl, f)} :: f in pl ==> Children(ts, pl, f)
  }

  /** Table f serves page v of its address space. */
  ghost predicate Serves(pl: Places, f: nat, v: nat) {
    f in pl && pl[f].level <= 4 && pl[f].prefix == Prefix(v, pl[f].level)
  }

  predicate IsRoot(pl: Places, r: nat) {
    r in pl && pl[r] == Place(r, 4, 0)
  }

  lemma RootServes(pl: Places, r: nat, v: nat)
    requires IsRoot(pl, r) && v < PAGES
    ensures Serves(pl, r, v)
  {
  }

  lemma ChildServes(ts: Tables, pl: Places, f: nat, v: nat)
    requires WellPlaced(ts, pl) && Serves(pl, f, v) && pl[f].level > 1 && ts[f][Idx(v, pl[f].level)].present
    ensures var c := ts[f][Idx(v, pl[f].level)].frame;
            Serves(pl, c, v) && pl[c].level == pl[f].level - 1 && pl[c].root == pl[f].root
  {
    assert Children(ts, pl, f);
    PrefixStep(v, pl[f].level);
  }

  /** (g, i) is the slot that page v of root r uses at g's level. */
  ghost predicate UsesSlot(pl: Places, g: nat, i: nat, r: nat, v: nat) {
    g in pl && 1 <= pl[g].level <= 4 && pl[g].root == r && Serves(pl, g, v) && i == Idx(v, pl[g].level)
  }

  /** One leaf slot, one page: no page shares its leaf slot with another page of any address space. */
  lemma LeafSlotIsPrivate(pl: Places, g: nat, i: nat, r: nat, v: nat, r': nat, v': nat)
    requires UsesSlot(pl, g, i, r, v) && UsesSlot(pl, g, i, r', v') && pl[g].level == 1
    ensures r == r' && v == v'
  {
    PrefixStep(v, 1);
    PrefixStep(v', 1);
  }

  function PutEntry(ts: Tables, g: nat, i: nat, e: Entry): Tables
    requires g in ts && i < |ts[g]|
  {
    ts[g := ts[g][i := e]]
  }

  /** A store into a slot that page v does not use leaves v's translation alone. */
  lemma {:induction false} LookupElsewhere(ts: Tables, pl: Places, f: nat, v: nat, g: nat, i: nat, e: Entry)
    requires WellPlaced(ts, pl) && Serves(pl, f, v) && g in pl && i < 512
    requires !UsesSlot(pl, g, i, pl[f].root, v)
    ensures Lookup(PutEntry(ts, g, i, e), f, pl[f].level, v) == Lookup(ts, f, pl[f].level, v)
    decreases pl[f].level
  {
    if pl[f].level > 1 && ts[f][Idx(v, pl[f].level)].present {
      ChildServes(ts, pl, f, v);
      LookupElsewhere(ts, pl, ts[f][Idx(v, pl[f].level)].frame, v, g, i, e);
    }
  }

  /** Changing only the flags of a directory entry changes no translation. */
  lemma {:induction false} LookupFlags(ts: Tables, pl: Places, f: nat, v: nat, g: nat, i: nat, e: Entry)
    requires WellPlaced(ts, pl) && Serves(pl, f, v) && g in pl && i < 512 && pl[g].level > 1
    requires e.present == ts[g][i].present && e.frame == ts[g][i].frame
    ensures Lookup(PutEntry(ts, g, i, e), f, pl[f].level, v) == Lookup(ts, f, pl[f].level, v)
    decreases pl[f].level
  {
    if pl[f].level > 1 && ts[f][Idx(v, pl[f].level)].present {
      ChildServes(ts, pl, f, v);
      LookupFlags(ts, pl, ts[f][Idx(v, pl[f].level)].frame, v, g, i, e);
    }
  }

  lemma FlagsKeepPlaces(ts: Tables, pl: Places, g: nat, i: nat, e: Entry)
    requires WellPlaced(ts, pl) && g in pl && i < 512
    requires pl[g].level == 1 || (e.present == ts[g][i].present && e.frame == ts[g][i].frame)
    ensures WellPlaced(PutEntry(ts, g, i, e), pl)
  {
    forall f | f in pl
      ensures Children(PutEntry(ts, g, i, e), pl, f)
    {
      assert Children(ts, pl, f);
    }
  }

  lemma NewRootKeepsPlaces(ts: Tables, pl: Places, r: nat)
    requires WellPlaced(ts, pl) && r !in pl
    ensures WellPlaced(ts[r := ZeroTable()], pl[r := Place(r, 4, 0)])
  {
    var ts', pl' := ts[r := ZeroTable()], pl[r := Place(r, 4, 0)];
    forall f | f in pl'
      ensures Children(ts', pl', f)
    {
      if f != r {
        assert Children(ts, pl, f);
      }
    }
  }

  /** Hang a fresh empty table c under slot i of g. */
  function Grow(ts: Tables, g: nat, i: nat, e: Entry): Tables
    requires g in ts && i < |ts[g]|
  {
    ts[g := ts[g][i := e]][e.frame := ZeroTable()]
  }

  function GrowPlaces(pl: Places, g: nat, i: nat, c: nat): Places
    requires g in pl && pl[g].level > 1
  {
    pl[c := Place(pl[g].root, pl[g].level - 1, pl[g].prefix * 512 + i)]
  }

  lemma GrowShaped(ts: Tables, pl: Places, g: nat, i: nat, e: Entry)
    requires Shaped(ts, pl) && g in pl && i < 512 && pl[g].level > 1 && e.frame !in pl
    ensures Shaped(Grow(ts, g, i, e), GrowPlaces(pl, g, i, e.frame))
  {
  }

  lemma GrowChildren(ts: Tables, pl: Places, g: nat, i: nat, e: Entry, f: nat)
    requires Shaped(ts, pl) && g in pl && i < 512 && pl[g].level > 1 && e.present && e.frame !in pl
    requires Shaped(Grow(ts, g, i, e), GrowPlaces(pl, g, i, e.frame))
    requires f in pl && Children(ts, pl, f)
    ensures Children(Grow(ts, g, i, e), GrowPlaces(pl, g, i, e.frame), f)
  {
    var ts', pl' := Grow(ts, g, i, e), GrowPlaces(pl, g, i, e.frame);
    assert f == g ==> ts'[f] == ts[f][i := e];
    assert f != g ==> ts'[f] == ts[f];
  }

  lemma GrowKeepsPlaces(ts: Tables, pl: Places, g: nat, i: nat, e: Entry)
    requires WellPlaced(ts, pl) && g in pl && i < 512 && pl[g].level > 1 && e.present && e.frame !in pl
    ensures WellPlaced(Grow(ts, g, i, e), GrowPlaces(pl, g, i, e.frame))
  {
    GrowShaped(ts, pl, g, i, e);
    var ts', pl' := Grow(ts, g, i, e), GrowPlaces(pl, g, i, e.frame);
    forall f | f in pl'
      ensures Children(ts', pl', f)
    {
      if f != e.frame {
        assert Children(ts, pl, f);
        GrowChildren(ts, pl, g, i, e, f);
      }
    }
  }

  lemma {:induction false} LookupGrow(ts: Tables, pl: Places, f: nat, v: nat, g: nat, i: nat, e: Entry)
    requires WellPlaced(ts, pl) && Serves(pl, f, v) && g in pl && i < 512 && pl[g].level > 1
    requires !ts[g][i].present && e.present && e.frame !in pl
    ensures Lookup(Grow(ts, g, i, e), f, pl[f].level, v) == Lookup(ts, f, pl[f].level, v)
    decreases pl[f].level
  {
    if pl[f].level > 1 && ts[f][Idx(v, pl[f].level)].present {
      ChildServes(ts, pl, f, v);
      LookupGrow(ts, pl, ts[f][Idx(v, pl[f].level)].frame, v, g, i, e);
    }
  }

  /** A fresh pml4 maps nothing, and the other address spaces do not notice. */
  lemma {:induction false} LookupNewRoot(ts: Tables, pl: Places, f: nat, v: nat, r: nat)
    requires WellPlaced(ts, pl) && Serves(pl, f, v) && r !in pl
    ensures Lookup(ts[r := ZeroTable()], f, pl[f].level, v) == Lookup(ts, f, pl[f].level, v)
    decreases pl[f].level
  {
    if pl[f].level > 1 && ts[f][Idx(v, pl[f].level)].present {
      ChildServes(ts, pl, f, v);
      LookupNewRoot(ts, pl, ts[f][Idx(v, pl[f].level)].frame, v, r);
    }
  }

  // ---- get_physaddr ----

  /** get_physaddr, level by level as written; 0 when some level is not present. */
  function GetPhysaddr(ts: Tables, ghost pl: Places, r: nat, a: nat): nat
    requires WellPlaced(ts, pl) && IsRoot(pl, r)
  {
    assert Children(ts, pl, r);
    var (i4, i3, i2, i1) := AddrSplit(a);
    var e4 := ts[r][i4];
    if !e4.present then 0 else
    assert Children(ts, pl, e4.frame);
    var e3 := ts[e4.frame][i3];
    if !e3.present then 0 else
    assert Children(ts, pl, e3.frame);
    var e2 := ts[e3.frame][i2];
    if !e2.present then 0 else
    var e1 := ts[e2.frame][i1];
    if !e1.present then 0 else e1.frame * PAGE_LEN + a % PAGE_LEN
  }

  /** The unrolled walker agrees with the tree walk. */
  lemma GetPhysaddrIsLookup(ts: Tables, pl: Places, r: nat, a: nat)
    requires WellPlaced(ts, pl) && IsRoot(pl, r)
    ensures GetPhysaddr(ts, pl, r, a) ==
            match Lookup(ts, r, 4, PageOf(a))
            case None => 0
            case Some(e) => e.frame * PAGE_LEN + a % PAGE_LEN
  {
    AddrSplitIsIdx(a);
    var v := PageOf(a);
    assert Children(ts, pl, r);
    var e4 := ts[r][Idx(v, 4)];
    if e4.present {
      assert Children(ts, pl, e4.frame);
      assert Lookup(ts, r, 4, v) == Lookup(ts, e4.frame, 3, v);
      var e3 := ts[e4.frame][Idx(v, 3)];
      if e3.present {
        assert Children(ts, pl, e3.frame);
        assert Lookup(ts, e4.frame, 3, v) == Lookup(ts, e3.frame, 2, v);
        var e2 := ts[e3.frame][Idx(v, 2)];
        if e2.present {
          assert Lookup(ts, e3.frame, 2, v) == Lookup(ts, e2.frame, 1, v);
        }
      }
    }
  }
}
