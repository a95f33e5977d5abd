/**
  Page tables under which two pages of one address space have one frame: a range over both reaches
  each byte of it twice, and copying out and back in loses bytes.
 */
module SharedFrame {
  import opened Common
  import opened PageTables
  import opened UserCopy

  /** A table with e in the first n entries. */
  function Filled(e: Entry, n: nat): seq<Entry> {
    seq(512, i => if i < n then e else EMPTY)
  }

  /** Frames 1 to 4 hold one chain of tables; the first two pages have frame 5. */
  function SharedTables(): Tables {
    map[1 := Filled(Entry(true, true, true, false, 2), 1), 2 := Filled(Entry(true, true, true, false, 3), 1),
        3 := Filled(Entry(true, true, true, false, 4), 1), 4 := Filled(Entry(true, true, true, false, 5), 2)]
  }

  function SharedPlaces(): Places {
    map[1 := Place(1, 4, 0), 2 := Place(1, 3, 0), 3 := Place(1, 2, 0), 4 := Place(1, 1, 0)]
  }

  lemma FirstEntryLeadsOn(ts: Tables, pl: Places, f: nat, e: Entry)
    requires Shaped(ts, pl) && f in pl && ts[f] == Filled(e, 1) && pl[f].level > 1 && pl[f].prefix == 0
    requires e.frame in pl && pl[e.frame] == Place(pl[f].root, pl[f].level - 1, 0)
    ensures Children(ts, pl, f)
  {
  }

  lemma SharedShaped()
    ensures Shaped(SharedTables(), SharedPlaces()) && IsRoot(SharedPlaces(), 1)
  {
    var ts, pl := SharedTables(), SharedPlaces();
    assert ts.Keys == {1, 2, 3, 4};
    assert pl.Keys == {1, 2, 3, 4};
    forall f | f in pl
      ensures |ts[f]| == 512 && 1 <= pl[f].level <= 4 && pl[f].root == 1
      ensures pl[f].level == 4 ==> pl[f] == Place(f, 4, 0)
    {
      assert f == 1 || f == 2 || f == 3 || f == 4;
    }
  }

  lemma SharedWellPlaced()
    ensures WellPlaced(SharedTables(), SharedPlaces()) && IsRoot(SharedPlaces(), 1)
  {
    var ts, pl := SharedTables(), SharedPlaces();
    SharedShaped();
    FirstEntryLeadsOn(ts, pl, 1, Entry(true, true, true, false, 2));
    FirstEntryLeadsOn(ts, pl, 2, Entry(true, true, true, false, 3));
    FirstEntryLeadsOn(ts, pl, 3, Entry(true, true, true, false, 4));
    assert Children(ts, pl, 4);
    assert pl.Keys == {1, 2, 3, 4};
  }

  lemma SharedLookup(v: nat)
    requires v < PAGES
    ensures Lookup(SharedTables(), 1, 4, v) == if v < 2 then Some(Entry(true, true, true, false, 5)) else None
  {
    var ts := SharedTables();
    assert Lookup(ts, 4, 1, v) == if Idx(v, 1) < 2 then Some(Entry(true, true, true, false, 5)) else None;
    assert Lookup(ts, 3, 2, v) == if Idx(v, 2) < 1 then Lookup(ts, 4, 1, v) else None;
    assert Lookup(ts, 2, 3, v) == if Idx(v, 3) < 1 then Lookup(ts, 3, 2, v) else None;
    assert Lookup(ts, 1, 4, v) == if Idx(v, 4) < 1 then Lookup(ts, 2, 3, v) else None;
    FirstDigits(v);
  }

  lemma FirstDigits(v: nat)
    requires v < PAGES
    ensures v < 2 <==> Idx(v, 4) == 0 && Idx(v, 3) == 0 && Idx(v, 2) == 0 && Idx(v, 1) < 2
  {
  }

  lemma FirstTwoPages(a: nat)
    requires a < 2 * PAGE_LEN
    ensures PageOf(a) < 2
  {
  }

  ghost predicate TwoPagesOneFrame(ts: Tables, r: nat, e: Entry) {
    forall v: nat {:trigger Lookup(ts, r, 4, v)} :: v < PAGES ==> Lookup(ts, r, 4, v) == if v < 2 then Some(e) else None
  }

  /** Wherever the first two pages have one frame, the range from 0 on reaches its first byte twice. */
  lemma OneFrameTwice(ts: Tables, r: nat, e: Entry, data: Bytes, n: nat) returns (src: seq<Byte>)
    requires TwoPagesOneFrame(ts, r, e) && e.user && e.rw && n == PAGE_LEN + 1
    ensures |src| == n && AllAllowed(ts, r, 0, n, true)
    ensures var cells := CellsOf(ts, r, 0, n);
            !Distinct(cells) && Loaded(Written(data, cells, src), cells) != src
  {
    forall a: nat | a < n
      ensures Allowed(ts, r, a, true)
    {
      FirstTwoPages(a);
    }
    FirstTwoPages(0);
    FirstTwoPages(PAGE_LEN);
    CellsOfAt(ts, r, 0, n, 0);
    CellsOfAt(ts, r, 0, n, PAGE_LEN);
    src := SharedCellBreaksRoundTrip(data, CellsOf(ts, r, 0, n), 0, PAGE_LEN);
  }

  /** Well-formed tables, and a user range over them, for which the round trip loses bytes. */
  lemma SharedFrameLosesBytes() returns (ts: Tables, pl: Places, r: nat, data: Bytes, a: nat, src: seq<Byte>)
    ensures WellPlaced(ts, pl) && IsRoot(pl, r) && Backed(ts, r, data) && AllAllowed(ts, r, a, a + |src|, true)
    ensures var cells := CellsOf(ts, r, a, |src|);
            !Distinct(cells) && Loaded(Written(data, cells, src), cells) != src
  {
    var e := Entry(true, true, true, false, 5);
    ts, pl, r, data, a := SharedTables(), SharedPlaces(), 1, map[5 := seq(PAGE_LEN, _ => 0)], 0;
    SharedWellPlaced();
    forall v: nat | v < PAGES
      ensures Lookup(ts, r, 4, v) == if v < 2 then Some(e) else None
    {
      SharedLookup(v);
    }
    assert TwoPagesOneFrame(ts, r, e);
    src := OneFrameTwice(ts, r, e, data, PAGE_LEN + 1);
  }
}
