/**
  copy_to_user_buf and copy_to_kernel_buf of src/syscall/syscall_helpers.c: page by page copies
  through a page table, against a specification that moves one byte at a time.
 */
module UserCopy {
  import opened Common
  import opened PageTables
  import opened PhysicalMemory
  import opened VirtualMemory

  type Bytes = map<nat, seq<Byte>> // frame -> its bytes
  type Cell = (nat, nat) // frame and offset

  // ---- bytes behind a sequence of cells ----

  ghost predicate Holds(data: Bytes, c: Cell) {
    c.0 in data && c.1 < |data[c.0]|
  }

  ghost function Load(data: Bytes, c: Cell): Byte {
    if Holds(data, c) then data[c.0][c.1] else 0
  }

  ghost function Store(data: Bytes, c: Cell, b: Byte): Bytes {
    if Holds(data, c) then
      var page: seq<Byte> := data[c.0][c.1 := b];
      data[c.0 := page]
    else data
  }

  /** One byte after the other, in order. */
  ghost function Written(data: Bytes, cells: seq<Cell>, src: seq<Byte>): Bytes
    requires |cells| == |src|
  {
    if src == [] then data else
    var n := |src| - 1;
    Store(Written(data, cells[..n], src[..n]), cells[n], src[n])
  }

  ghost function Loaded(data: Bytes, cells: seq<Cell>): (s: seq<Byte>)
    ensures |s| == |cells|
  {
    if cells == [] then [] else
    var n := |cells| - 1;
    Loaded(data, cells[..n]) + [Load(data, cells[n])]
  }

  lemma {:induction false} LoadedAt(data: Bytes, cells: seq<Cell>)
    ensures forall i :: 0 <= i < |cells| ==> Loaded(data, cells)[i] == Load(data, cells[i])
    decreases |cells|
  {
    if cells != [] {
      LoadedAt(data, cells[..|cells| - 1]);
    }
  }

  ghost predicate Distinct(cells: seq<Cell>) {
    forall i, j :: 0 <= i < j < |cells| ==> cells[i] != cells[j]
  }

  ghost predicate SameShape(data: Bytes, data': Bytes) {
    data'.Keys == data.Keys && forall f :: f in data ==> |data'[f]| == |data[f]|
  }

  lemma StoreFrame(data: Bytes, c: Cell, b: Byte, d: Cell)
    ensures SameShape(data, Store(data, c, b))
    ensures d != c ==> Load(Store(data, c, b), d) == Load(data, d)
    ensures Holds(data, c) ==> Load(Store(data, c, b), c) == b
  {
  }

  lemma {:induction false} WrittenShape(data: Bytes, cells: seq<Cell>, src: seq<Byte>)
    requires |cells| == |src|
    ensures SameShape(data, Written(data, cells, src))
    decreases |src|
  {
    if src != [] {
      var n := |src| - 1;
      WrittenShape(data, cells[..n], src[..n]);
      StoreFrame(Written(data, cells[..n], src[..n]), cells[n], src[n], (0, 0));
    }
  }

  lemma {:induction false} WrittenElsewhere(data: Bytes, cells: seq<Cell>, src: seq<Byte>, c: Cell)
    requires |cells| == |src| && c !in cells
    ensures Load(Written(data, cells, src), c) == Load(data, c)
    decreases |src|
  {
    if src != [] {
      var n := |src| - 1;
      WrittenElsewhere(data, cells[..n], src[..n], c);
      StoreFrame(Written(data, cells[..n], src[..n]), cells[n], src[n], c);
    }
  }

  /** No frame appears, goes away or changes size, and a byte outside the range keeps its value. */
  lemma CopyTouchesNothingElse(data: Bytes, cells: seq<Cell>, src: seq<Byte>)
    requires |cells| == |src|
    ensures SameShape(data, Written(data, cells, src))
    ensures forall f, o: nat :: f in data && o < |data[f]| && (f, o) !in cells ==>
              Written(data, cells, src)[f][o] == data[f][o]
  {
    WrittenShape(data, cells, src);
    forall f, o: nat | f in data && o < |data[f]| && (f, o) !in cells
      ensures Written(data, cells, src)[f][o] == data[f][o]
    {
      WrittenElsewhere(data, cells, src, (f, o));
    }
  }

  /** A frame none of whose cells is in the range keeps all its bytes. */
  lemma OtherFrameUntouched(data: Bytes, cells: seq<Cell>, src: seq<Byte>, f: nat)
    requires |cells| == |src| && f in data && forall i :: 0 <= i < |cells| ==> cells[i].0 != f
    ensures f in Written(data, cells, src) && Written(data, cells, src)[f] == data[f]
  {
    CopyTouchesNothingElse(data, cells, src);
    assert forall o: nat :: o < |data[f]| ==> (f, o) !in cells;
  }

  lemma {:induction false} WrittenTogether(data: Bytes, c: seq<Cell>, s: seq<Byte>, d: seq<Cell>, t: seq<Byte>)
    requires |c| == |s| && |d| == |t|
    ensures Written(data, c + d, s + t) == Written(Written(data, c, s), d, t)
    decreases |t|
  {
    if t == [] {
      assert s + t == s && c + d == c;
    } else {
      var n := |t| - 1;
      assert (s + t)[..|s + t| - 1] == s + t[..n] && (c + d)[..|s + t| - 1] == c + d[..n];
      WrittenTogether(data, c, s, d[..n], t[..n]);
    }
  }

  lemma {:induction false} WrittenAt(data: Bytes, cells: seq<Cell>, src: seq<Byte>, j: nat)
    requires j < |src| == |cells| && Distinct(cells) && Holds(data, cells[j])
    ensures Load(Written(data, cells, src), cells[j]) == src[j]
    decreases |src|
  {
    var n := |src| - 1;
    WrittenShape(data, cells[..n], src[..n]);
    StoreFrame(Written(data, cells[..n], src[..n]), cells[n], src[n], cells[j]);
    if j < n {
      WrittenAt(data, cells[..n], src[..n], j);
    }
  }

  // ---- consecutive cells of one page ----

  function Splice(page: seq<Byte>, o: nat, chunk: seq<Byte>): seq<Byte>
    requires o + |chunk| <= |page|
  {
    page[..o] + chunk + page[o + |chunk|..]
  }

  ghost predicate Consecutive(cells: seq<Cell>, f: nat, o: nat) {
    forall i :: 0 <= i < |cells| ==> cells[i] == (f, o + i)
  }

  /** memcpy into one page is the same as storing its bytes one by one. */
  lemma {:induction false} OnePageWrite(data: Bytes, f: nat, o: nat, cells: seq<Cell>, chunk: seq<Byte>)
    requires f in data && o + |chunk| <= |data[f]| && |cells| == |chunk| && Consecutive(cells, f, o)
    ensures Written(data, cells, chunk) == data[f := Splice(data[f], o, chunk)]
    decreases |chunk|
  {
    if chunk == [] {
      assert Splice(data[f], o, chunk) == data[f];
    } else {
      var n := |chunk| - 1;
      OnePageWrite(data, f, o, cells[..n], chunk[..n]);
      assert Splice(data[f], o, chunk[..n])[o + n := chunk[n]] == Splice(data[f], o, chunk);
    }
  }

  /** memcpy out of one page is the same as loading its bytes one by one. */
  lemma OnePageRead(data: Bytes, f: nat, o: nat, cells: seq<Cell>)
    requires f in data && o + |cells| <= |data[f]| && Consecutive(cells, f, o)
    ensures Loaded(data, cells) == data[f][o..o + |cells|]
  {
    LoadedAt(data, cells);
  }

  // ---- addresses ----

  /** The checks a page must pass; `strict` asks for a writable page as well. */
  ghost predicate Allowed(ts: Tables, r: nat, a: nat, strict: bool) {
    match Lookup(ts, r, 4, PageOf(a))
    case None => false
    case Some(e) => e.user && (strict ==> e.rw)
  }

  /** The physical cell behind address a. */
  ghost function CellOf(ts: Tables, r: nat, a: nat): Cell {
    match Lookup(ts, r, 4, PageOf(a))
    case None => (0, a % PAGE_LEN)
    case Some(e) => (e.frame, a % PAGE_LEN)
  }

  ghost function CellsOf(ts: Tables, r: nat, a: nat, n: nat): (s: seq<Cell>)
    ensures |s| == n
  {
    if n == 0 then [] else CellsOf(ts, r, a, n - 1) + [CellOf(ts, r, a + n - 1)]
  }

  lemma {:induction false} CellsOfAt(ts: Tables, r: nat, a: nat, n: nat, i: nat)
    requires i < n
    ensures CellsOf(ts, r, a, n)[i] == CellOf(ts, r, a + i)
    decreases n
  {
    if i < n - 1 {
      CellsOfAt(ts, r, a, n - 1, i);
    }
  }

  ghost predicate AllAllowed(ts: Tables, r: nat, lo: nat, hi: nat, strict: bool) {
    forall a: nat :: lo <= a < hi ==> Allowed(ts, r, a, strict)
  }

  /** Frames of whole pages behind everything a user may touch. */
  ghost predicate Backed(ts: Tables, r: nat, data: Bytes) {
    && (forall f :: f in data ==> |data[f]| == PAGE_LEN)
    && (forall v: nat :: v < PAGES && Lookup(ts, r, 4, v).Some? && Lookup(ts, r, 4, v).value.user ==>
          Lookup(ts, r, 4, v).value.frame in data)
  }

  lemma AllowedHolds(ts: Tables, r: nat, data: Bytes, a: nat)
    requires Backed(ts, r, data) && Allowed(ts, r, a, false)
    ensures Holds(data, CellOf(ts, r, a)) && |data[CellOf(ts, r, a).0]| == PAGE_LEN &&
            CellOf(ts, r, a).1 == a % PAGE_LEN
  {
    assert PageOf(a) < PAGES;
  }

  lemma SamePage(a: nat, n: nat)
    requires a % PAGE_LEN + n < PAGE_LEN
    ensures PageOf(a + n) == PageOf(a) && (a + n) % PAGE_LEN == a % PAGE_LEN + n
  {
    assert (a + n) / PAGE_LEN == a / PAGE_LEN;
  }

  /** An address after wrapping at 64 bits reaches the same page and offset. */
  lemma Wrapped(a: nat)
    ensures PageOf(a % WORD) == PageOf(a) && a % WORD % PAGE_LEN == a % PAGE_LEN
  {
    WordPage(a);
  }

  lemma ChunkCells(ts: Tables, r: nat, a: nat, cells: seq<Cell>, offs: nat, k: nat)
    requires offs + k <= |cells| && cells == CellsOf(ts, r, a, |cells|) && (a + offs) % PAGE_LEN + k <= PAGE_LEN
    ensures Consecutive(cells[offs..offs + k], CellOf(ts, r, a + offs).0, (a + offs) % PAGE_LEN)
  {
    var part := cells[offs..offs + k];
    forall i | 0 <= i < k
      ensures part[i] == (CellOf(ts, r, a + offs).0, (a + offs) % PAGE_LEN + i)
    {
      CellsOfAt(ts, r, a, |cells|, offs + i);
      SamePage(a + offs, i);
      assert a + offs + i == a + (offs + i);
    }
  }

  lemma ChunkAllowed(ts: Tables, r: nat, a: nat, k: nat, strict: bool)
    requires a % PAGE_LEN + k <= PAGE_LEN && Allowed(ts, r, a, strict)
    ensures AllAllowed(ts, r, a, a + k, strict)
  {
    forall b: nat | a <= b < a + k
      ensures Allowed(ts, r, b, strict)
    {
      SamePage(a, b - a);
      assert PageOf(b) == PageOf(a);
    }
  }

  // ---- copying out and back in ----

  lemma RoundTripAt(ts: Tables, r: nat, data: Bytes, a: nat, src: seq<Byte>, j: nat)
    requires Backed(ts, r, data) && Allowed(ts, r, a + j, false) && Distinct(CellsOf(ts, r, a, |src|)) && j < |src|
    ensures var cells := CellsOf(ts, r, a, |src|);
            |Loaded(Written(data, cells, src), cells)| == |src| && Loaded(Written(data, cells, src), cells)[j] == src[j]
  {
    var cells := CellsOf(ts, r, a, |src|);
    AllowedHolds(ts, r, data, a + j);
    CellsOfAt(ts, r, a, |src|, j);
    WrittenAt(data, cells, src, j);
    LoadedAt(Written(data, cells, src), cells);
  }

  lemma DistinctRoundTrip(ts: Tables, r: nat, data: Bytes, a: nat, src: seq<Byte>)
    requires Backed(ts, r, data) && AllAllowed(ts, r, a, a + |src|, false) && Distinct(CellsOf(ts, r, a, |src|))
    ensures var cells := CellsOf(ts, r, a, |src|); Loaded(Written(data, cells, src), cells) == src
  {
    var cells := CellsOf(ts, r, a, |src|);
    var back := Loaded(Written(data, cells, src), cells);
    forall j: nat | j < |src|
      ensures back[j] == src[j]
    {
      RoundTripAt(ts, r, data, a, src, j);
    }
  }

  lemma SharedCellBreaksRoundTrip(data: Bytes, cells: seq<Cell>, i: nat, j: nat) returns (src: seq<Byte>)
    requires i < j < |cells| && cells[i] == cells[j]
    ensures |src| == |cells| && Loaded(Written(data, cells, src), cells) != src
  {
    src := seq(|cells|, k => 0)[j := 1];
    var back := Loaded(Written(data, cells, src), cells);
    LoadedAt(Written(data, cells, src), cells);
    assert back[i] == back[j] && src[i] != src[j];
  }

  /**
    Copying out and then in returns the original bytes, whatever they are, exactly when no two
    addresses of the range share a cell.
   */
  lemma CopyOutThenIn(ts: Tables, r: nat, data: Bytes, a: nat, n: nat)
    requires Backed(ts, r, data) && AllAllowed(ts, r, a, a + n, false)
    ensures var cells := CellsOf(ts, r, a, n);
            Distinct(cells) <==>
            forall src: seq<Byte> {:trigger Written(data, cells, src)} :: |src| == n ==>
              Loaded(Written(data, cells, src), cells) == src
  {
    var cells := CellsOf(ts, r, a, n);
    if Distinct(cells) {
      forall src: seq<Byte> | |src| == n
        ensures Loaded(Written(data, cells, src), cells) == src
      {
        DistinctRoundTrip(ts, r, data, a, src);
      }
    } else {
      var i, j :| 0 <= i < j < n && cells[i] == cells[j];
      var src := SharedCellBreaksRoundTrip(data, cells, i, j);
    }
  }

  // ---- the two copy loops ----

  /** How much of the copy the page at offset offs takes. */
  function ChunkLen(start: nat, count: nat, offs: nat): nat
    requires offs < count
  {
    var firstPageLen := PAGE_LEN - start % PAGE_LEN;
    var lastPageLen := (start + count) % PAGE_LEN;
    if offs == 0 then (if count < firstPageLen then count else firstPageLen)
    else if offs + PAGE_LEN > count then lastPageLen
    else PAGE_LEN
  }

  /** The offset after j rounds: zero, then the page boundaries, then the end. */
  function OffsetAfter(start: nat, count: nat, j: nat): (offs: nat)
    ensures offs <= count
  {
    var reach := PAGE_LEN - start % PAGE_LEN + (j - 1) * PAGE_LEN;
    if j == 0 then 0 else if reach < count then reach else count
  }

  /** Every round makes progress, stays inside one page and ends at the next boundary. */
  lemma ChunkFits(start: nat, count: nat, j: nat)
    requires OffsetAfter(start, count, j) < count
    ensures var offs := OffsetAfter(start, count, j);
            var k := ChunkLen(start, count, offs);
            0 < k && offs + k == OffsetAfter(start, count, j + 1) && (start + offs) % PAGE_LEN + k <= PAGE_LEN
  {
    var offs := OffsetAfter(start, count, j);
    if j > 0 {
      assert (start + offs) % PAGE_LEN == 0 by {
        assert start + offs == (start / PAGE_LEN + j) * PAGE_LEN;
      }
    }
  }

  /** The first n bytes of the range pass the checks and, if the copy stopped short, the next one does not. */
  ghost predicate StoppedAt(ts: Tables, r: nat, a: nat, count: nat, strict: bool, n: nat) {
    n <= count && AllAllowed(ts, r, a, a + n, strict) && (n < count ==> !Allowed(ts, r, a + n, strict))
  }

  lemma NotStopped(ts: Tables, r: nat, a: nat, count: nat, strict: bool, n: nat)
    requires n == count && AllAllowed(ts, r, a, a + n, strict)
    ensures StoppedAt(ts, r, a, count, strict, n)
  {
  }

  const KERNEL_START_ADDR := 0xFFFF_8000_0000_1000

  predicate IsUserspace(a: nat) {
    a < KERNEL_START_ADDR
  }

  /** find_page(addr, false) and the checks on what it returns. */
  method CheckedPage(m: Machine, r: nat, a: nat, strict: bool, ghost ts: Tables) returns (frame: Option<nat>)
    requires m.Valid() && !m.pmm.locked && r in m.roots && SameView(ts, m.roots, m.tables)
    modifies m`tables, m`place, m.pmm
    ensures m.Valid() && !m.pmm.locked && SameView(ts, m.roots, m.tables)
    ensures m.pmm.free == old(m.pmm.free) && m.place == old(m.place)
    ensures frame.Some? <==> Allowed(ts, r, a, strict)
    ensures frame.Some? ==> frame.value == CellOf(ts, r, a).0
  {
    var page := m.FindPage(r, a % WORD, false, IsUserspace(a % WORD));
    Wrapped(a);
    assert Lookup(m.tables, r, 4, PageOf(a)) == Lookup(ts, r, 4, PageOf(a));
    SameViewTwice(ts, m.roots, old(m.tables), m.tables);
    if page == None {
      return None;
    }
    var e := m.tables[page.value.0][page.value.1];
    if !e.user || (strict && !e.rw) {
      return None;
    }
    return Some(e.frame);
  }

  lemma SameViewTwice(ts: Tables, roots: set<nat>, ts1: Tables, ts2: Tables)
    requires SameView(ts, roots, ts1) && SameView(ts1, roots, ts2)
    ensures SameView(ts, roots, ts2)
  {
    forall r: nat, v: nat | r in roots && v < PAGES
      ensures Lookup(ts2, r, 4, v) == Lookup(ts, r, 4, v)
    {
      assert Lookup(ts1, r, 4, v) == Lookup(ts, r, 4, v);
    }
  }

  lemma TakeMore<T>(s: seq<T>, i: nat, k: nat)
    requires i + k <= |s|
    ensures s[..i] + s[i..i + k] == s[..i + k]
  {
  }

  lemma ChunkStores(data: Bytes, cells: seq<Cell>, src: seq<Byte>, offs: nat, k: nat, f: nat, o: nat)
    requires offs + k <= |src| == |cells| && Consecutive(cells[offs..offs + k], f, o)
    requires f in data && o + k <= |data[f]|
    ensures var cur := Written(data, cells[..offs], src[..offs]);
            && SameShape(data, cur)
            && cur[f := Splice(cur[f], o, src[offs..offs + k])] == Written(data, cells[..offs + k], src[..offs + k])
  {
    var cur := Written(data, cells[..offs], src[..offs]);
    WrittenShape(data, cells[..offs], src[..offs]);
    OnePageWrite(cur, f, o, cells[offs..offs + k], src[offs..offs + k]);
    WrittenTogether(data, cells[..offs], src[..offs], cells[offs..offs + k], src[offs..offs + k]);
    TakeMore(src, offs, k);
    TakeMore(cells, offs, k);
  }

  lemma ChunkLoads(data: Bytes, cells: seq<Cell>, offs: nat, k: nat, f: nat, o: nat)
    requires offs + k <= |cells| && Consecutive(cells[offs..offs + k], f, o) && f in data && o + k <= |data[f]|
    ensures Loaded(data, cells[..offs + k]) == Loaded(data, cells[..offs]) + data[f][o..o + k]
  {
    OnePageRead(data, f, o, cells[offs..offs + k]);
    LoadedAt(data, cells[..offs + k]);
    LoadedAt(data, cells[..offs]);
    LoadedAt(data, cells[offs..offs + k]);
    assert Loaded(data, cells[..offs + k]) == Loaded(data, cells[..offs]) + Loaded(data, cells[offs..offs + k]);
  }

  lemma JoinAllowed(ts: Tables, r: nat, lo: nat, mid: nat, hi: nat, strict: bool)
    requires AllAllowed(ts, r, lo, mid, strict) && AllAllowed(ts, r, mid, hi, strict)
    ensures AllAllowed(ts, r, lo, hi, strict)
  {
    forall a: nat | lo <= a < hi
      ensures Allowed(ts, r, a, strict)
    {
      assert a < mid ==> Allowed(ts, r, a, strict);
    }
  }

  /** A chunk within a page whose first byte may be reached. */
  lemma ChunkReady(ts: Tables, r: nat, start: nat, offs: nat, k: nat, strict: bool, data: Bytes, cells: seq<Cell>)
    requires Backed(ts, r, data) && AllAllowed(ts, r, start, start + offs, strict)
    requires Allowed(ts, r, start + offs, strict)
    requires offs + k <= |cells| && cells == CellsOf(ts, r, start, |cells|) && (start + offs) % PAGE_LEN + k <= PAGE_LEN
    ensures AllAllowed(ts, r, start, start + (offs + k), strict)
    ensures var c := CellOf(ts, r, start + offs);
            && c.0 in data && (start + offs) % PAGE_LEN + k <= |data[c.0]|
            && Consecutive(cells[offs..offs + k], c.0, (start + offs) % PAGE_LEN)
  {
    ChunkAllowed(ts, r, start + offs, k, strict);
    JoinAllowed(ts, r, start, start + offs, start + (offs + k), strict);
    AllowedHolds(ts, r, data, start + offs);
    ChunkCells(ts, r, start, cells, offs, k);
  }

  /** Round j of either copy: the page's frame, its share k of the bytes and their offset in the page. */
  method NextChunk(m: Machine, r: nat, start: nat, count: nat, offs: nat, strict: bool,
                   ghost ts: Tables, ghost data: Bytes, ghost cells: seq<Cell>, ghost j: nat)
    returns (frame: Option<nat>, next: nat, o: nat)
    requires m.Valid() && !m.pmm.locked && r in m.roots && SameView(ts, m.roots, m.tables)
    requires offs < count && offs == OffsetAfter(start, count, j) && Backed(ts, r, data)
    requires cells == CellsOf(ts, r, start, count) && AllAllowed(ts, r, start, start + offs, strict)
    modifies m`tables, m`place, m.pmm
    ensures m.Valid() && !m.pmm.locked && SameView(ts, m.roots, m.tables)
    ensures m.pmm.free == old(m.pmm.free) && m.place == old(m.place)
    ensures frame == None ==> StoppedAt(ts, r, start, count, strict, offs)
    ensures frame.Some? ==>
              && offs < next == OffsetAfter(start, count, j + 1)
              && AllAllowed(ts, r, start, start + next, strict)
              && frame.value in data && o + (next - offs) <= |data[frame.value]| &&
                 Consecutive(cells[offs..next], frame.value, o)
  {
    var k := ChunkLen(start, count, offs);
    next, o := offs + k, (start + offs) % WORD % PAGE_LEN;
    frame := CheckedPage(m, r, start + offs, strict, ts);
    if frame.Some? {
      Wrapped(start + offs);
      ChunkFits(start, count, j);
      ChunkReady(ts, r, start, offs, k, strict, data, cells);
    }
  }

  /** memcpy of one chunk into a frame. */
  method StoreChunk(m: Machine, src: seq<Byte>, offs: nat, next: nat, frame: nat, o: nat, ghost data: Bytes,
                    ghost cells: seq<Cell>)
    requires m.Valid() && offs <= next <= |src| == |cells| && Consecutive(cells[offs..next], frame, o)
    requires frame in data && o + (next - offs) <= |data[frame]| && m.data == Written(data, cells[..offs], src[..offs])
    modifies m`data
    ensures m.Valid() && m.data == Written(data, cells[..next], src[..next])
  {
    ChunkStores(data, cells, src, offs, next - offs, frame, o);
    var page: seq<Byte> := Splice(m.data[frame], o, src[offs..next]);
    m.data := m.data[frame := page];
  }

  /** One round of copy_to_user_buf. */
  method StoreNext(m: Machine, r: nat, dest: nat, src: seq<Byte>, offs: nat, strict: bool,
                   ghost ts: Tables, ghost data: Bytes, ghost cells: seq<Cell>, ghost j: nat)
    returns (more: bool, next: nat)
    requires m.Valid() && !m.pmm.locked && r in m.roots && SameView(ts, m.roots, m.tables)
    requires offs < |src| && offs == OffsetAfter(dest, |src|, j) && Backed(ts, r, data)
    requires cells == CellsOf(ts, r, dest, |src|) && AllAllowed(ts, r, dest, dest + offs, strict)
    requires m.data == Written(data, cells[..offs], src[..offs])
    modifies m`tables, m`place, m`data, m.pmm
    ensures m.Valid() && !m.pmm.locked && SameView(ts, m.roots, m.tables)
    ensures m.pmm.free == old(m.pmm.free) && m.place == old(m.place)
    ensures !more ==> StoppedAt(ts, r, dest, |src|, strict, offs) && m.data == old(m.data)
    ensures more ==>
              && offs < next == OffsetAfter(dest, |src|, j + 1) && AllAllowed(ts, r, dest, dest + next, strict)
              && m.data == Written(data, cells[..next], src[..next])
  {
    var frame, end, o := NextChunk(m, r, dest, |src|, offs, strict, ts, data, cells, j);
    if frame == None {
      return false, offs;
    }
    StoreChunk(m, src, offs, end, frame.value, o, data, cells);
    return true, end;
  }

  /**
    copy_to_user_buf.  It succeeds exactly when every page of the range passes its checks; in any
    case the bytes before the first failing page, and nothing else, have been stored.
   */
  method CopyToUser(m: Machine, r: nat, dest: nat, src: seq<Byte>, over: bool) returns (ok: bool, ghost n: nat)
    requires m.Valid() && !m.pmm.locked && r in m.roots && Backed(m.tables, r, m.data)
    modifies m`tables, m`place, m`data, m.pmm
    ensures m.Valid() && !m.pmm.locked && SameView(old(m.tables), m.roots, m.tables)
    ensures m.pmm.free == old(m.pmm.free) && m.place == old(m.place)
    ensures StoppedAt(old(m.tables), r, dest, |src|, !over, n) && ok == (n == |src|)
    ensures m.data == Written(old(m.data), CellsOf(old(m.tables), r, dest, |src|)[..n], src[..n])
  {
    ghost var ts, data, cells, j := m.tables, m.data, CellsOf(m.tables, r, dest, |src|), 0;
    var offs := 0;
    while offs < |src|
      invariant m.Valid() && !m.pmm.locked && SameView(ts, m.roots, m.tables) && offs == OffsetAfter(dest, |src|, j)
      invariant m.pmm.free == old(m.pmm.free) && m.place == old(m.place) && offs <= |src| == |cells|
      invariant AllAllowed(ts, r, dest, dest + offs, !over)
      invariant m.data == Written(data, cells[..offs], src[..offs])
    {
      var more, next := StoreNext(m, r, dest, src, offs, !over, ts, data, cells, j);
      if !more {
        return false, offs;
      }
      offs := next;
      j := j + 1;
    }
    NotStopped(ts, r, dest, |src|, !over, offs);
    return true, offs;
  }

  /** memcpy of one chunk into the kernel's buffer. */
  method LoadChunk(dest: array<Byte>, data: Bytes, offs: nat, next: nat, frame: nat, o: nat, ghost cells: seq<Cell>,
                   ghost was: seq<Byte>)
    requires offs <= next <= |cells| <= dest.Length == |was| && Consecutive(cells[offs..next], frame, o)
    requires frame in data && o + (next - offs) <= |data[frame]| &&
             dest[..] == Loaded(data, cells[..offs]) + was[offs..]
    modifies dest
    ensures dest[..] == Loaded(data, cells[..next]) + was[next..]
  {
    ChunkLoads(data, cells, offs, next - offs, frame, o);
    MemCopy(dest, offs, data[frame], o, next - offs);
    ghost var before := old(dest[..]);
    assert forall i :: 0 <= i < dest.Length ==> old(dest[i]) == before[i];
    assert dest[..next] == Loaded(data, cells[..offs]) + data[frame][o..o + (next - offs)];
    assert dest[next..] == was[next..];
    assert dest[..] == dest[..next] + dest[next..];
  }

  /** One round of copy_to_kernel_buf. */
  method LoadNext(m: Machine, r: nat, dest: array<Byte>, src: nat, count: nat, offs: nat,
                  ghost ts: Tables, ghost cells: seq<Cell>, ghost was: seq<Byte>, ghost j: nat)
    returns (more: bool, next: nat)
    requires m.Valid() && !m.pmm.locked && r in m.roots && SameView(ts, m.roots, m.tables)
    requires offs < count <= dest.Length == |was| && offs == OffsetAfter(src, count, j) && Backed(ts, r, m.data)
    requires cells == CellsOf(ts, r, src, count) && AllAllowed(ts, r, src, src + offs, false)
    requires dest[..] == Loaded(m.data, cells[..offs]) + was[offs..]
    modifies m`tables, m`place, m.pmm, dest
    ensures m.Valid() && !m.pmm.locked && SameView(ts, m.roots, m.tables)
    ensures m.pmm.free == old(m.pmm.free) && m.place == old(m.place)
    ensures !more ==> StoppedAt(ts, r, src, count, false, offs) && dest[..] == old(dest[..])
    ensures more ==>
              && offs < next == OffsetAfter(src, count, j + 1) && AllAllowed(ts, r, src, src + next, false)
              && dest[..] == Loaded(m.data, cells[..next]) + was[next..]
  {
    var frame, end, o := NextChunk(m, r, src, count, offs, false, ts, m.data, cells, j);
    if frame == None {
      return false, offs;
    }
    LoadChunk(dest, m.data, offs, end, frame.value, o, cells, was);
    return true, end;
  }

  /**
    copy_to_kernel_buf: the same checks except writability; the bytes before the first failing page
    are in the kernel's buffer, whose remainder is as it was.
   */
  method CopyToKernel(m: Machine, r: nat, dest: array<Byte>, src: nat, count: nat) returns (ok: bool, ghost n: nat)
    requires m.Valid() && !m.pmm.locked && r in m.roots && Backed(m.tables, r, m.data) && count <= dest.Length
    modifies m`tables, m`place, m.pmm, dest
    ensures m.Valid() && !m.pmm.locked && SameView(old(m.tables), m.roots, m.tables)
    ensures m.pmm.free == old(m.pmm.free) && m.place == old(m.place)
    ensures StoppedAt(old(m.tables), r, src, count, false, n) && ok == (n == count)
    ensures dest[..] == Loaded(m.data, CellsOf(old(m.tables), r, src, count)[..n]) + old(dest[..])[n..]
  {
    ghost var ts, was, cells, j := m.tables, dest[..], CellsOf(m.tables, r, src, count), 0;
    var offs := 0;
    while offs < count
      invariant m.Valid() && !m.pmm.locked && SameView(ts, m.roots, m.tables) && offs == OffsetAfter(src, count, j)
      invariant m.pmm.free == old(m.pmm.free) && m.place == old(m.place)
      invariant AllAllowed(ts, r, src, src + offs, false)
      invariant dest[..] == Loaded(m.data, cells[..offs]) + was[offs..]
    {
      var more, next := LoadNext(m, r, dest, src, count, offs, ts, cells, was, j);
      if !more {
        return false, offs;
      }
      offs := next;
      j := j + 1;
    }
    NotStopped(ts, r, src, count, false, offs);
    return true, offs;
  }

  method MemCopy(dest: array<Byte>, at: nat, from: seq<Byte>, o: nat, k: nat)
    requires at + k <= dest.Length && o + k <= |from|
    modifies dest
    ensures forall i :: 0 <= i < dest.Length ==>
              dest[i] == if at <= i < at + k then from[o + (i - at)] else old(dest[i])
  {
    var n := 0;
    while n < k
      invariant n <= k
      invariant forall i :: 0 <= i < dest.Length ==>
                  dest[i] == if at <= i < at + n then from[o + (i - at)] else old(dest[i])
    {
      dest[at + n] := from[o + n];
      n := n + 1;
    }
  }
}
