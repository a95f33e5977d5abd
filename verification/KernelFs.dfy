/** The kernel's own file system (src/vfs/kernelfs.c): creating nodes, finding them, reading directories. */
module KernelFs {
  import opened Common

  const NAME_MAX := 255
  const DIRENT_SIZE := 257 // sizeof(struct plenjos_dirent)

  /** struct kernelfs_node; children are listed in the order of their next pointers. */
  datatype KNode = KNode(name: string, kind: nat, uid: nat, gid: nat, mode: nat, parent: Option<nat>,
                         children: seq<nat>)

  type Fs = seq<KNode> // node 0 is the root

  // ---- C string comparison ----

  function Take(s: string, n: nat): string {
    if |s| < n then s else s[..n]
  }

  /** strncmp(a, b, n) == 0 */
  predicate StrnEq(a: string, b: string, n: nat) {
    Take(a, n) == Take(b, n)
  }

  /** What strncpy into a name field keeps. */
  function Stored(name: string): (s: string)
    ensures |s| <= NAME_MAX
  {
    Take(name, NAME_MAX)
  }

  /** Against a stored name, comparing NAME_MAX + 1 characters is plain equality. */
  lemma StoredCompare(stored: string, name: string)
    requires |stored| <= NAME_MAX
    ensures StrnEq(stored, name, NAME_MAX + 1) <==> stored == name
  {
    if |name| >= NAME_MAX + 1 {
      assert |Take(name, NAME_MAX + 1)| == NAME_MAX + 1;
    }
  }

  // ---- the tree ----

  ghost predicate NodeOk(fs: Fs, i: nat)
    requires i < |fs|
  {
    && |fs[i].name| <= NAME_MAX
    && (fs[i].kind != DT_DIR ==> fs[i].children == [])
    && (fs[i].parent == None <==> i == 0) && (fs[i].parent.Some? ==> fs[i].parent.value < |fs|)
    && (forall k :: 0 <= k < |fs[i].children| ==> fs[i].children[k] < |fs| && fs[fs[i].children[k]].parent == Some(i))
  }

  ghost predicate FsOk(fs: Fs) {
    fs != [] && fs[0].kind == DT_DIR && forall i: nat {:trigger NodeOk(fs, i)} :: i < |fs| ==> NodeOk(fs, i)
  }

  /** The first of the nodes `kids` called name. */
  function FindFrom(fs: Fs, kids: seq<nat>, name: string): (r: Option<nat>)
    requires forall k :: 0 <= k < |kids| ==> kids[k] < |fs|
    ensures r.Some? ==> r.value in kids && fs[r.value].name == name
    ensures r == None <==> forall k :: 0 <= k < |kids| ==> fs[kids[k]].name != name
  {
    if kids == [] then None else if fs[kids[0]].name == name then Some(kids[0]) else FindFrom(fs, kids[1..], name)
  }

  predicate FindableKids(fs: Fs, i: nat)
    requires i < |fs|
  {
    forall k :: 0 <= k < |fs[i].children| ==> fs[i].children[k] < |fs|
  }

  function FindChild(fs: Fs, i: nat, name: string): (r: Option<nat>)
    requires i < |fs| && FindableKids(fs, i)
  {
    FindFrom(fs, fs[i].children, name)
  }

  function ChildNames(fs: Fs, kids: seq<nat>): (names: seq<string>)
    requires forall k :: 0 <= k < |kids| ==> kids[k] < |fs|
    ensures |names| == |kids| && forall k :: 0 <= k < |kids| ==> names[k] == fs[kids[k]].name
  {
    if kids == [] then [] else ChildNames(fs, kids[..|kids| - 1]) + [fs[kids[|kids| - 1]].name]
  }

  ghost predicate Unique(names: seq<string>) {
    forall j, k :: 0 <= j < k < |names| ==> names[j] != names[k]
  }

  /** kernelfs_create_node's tree after appending a node below i. */
  function Added(fs: Fs, i: nat, name: string, kind: nat, uid: nat, gid: nat, mode: nat): Fs
    requires i < |fs|
  {
    fs[i := fs[i].(children := fs[i].children + [|fs|])] + [KNode(Stored(name), kind, uid, gid, mode, Some(i), [])]
  }

  /** kernelfs_create_node: the return value, and the tree afterwards. */
  function Created(fs: Fs, i: nat, name: string, kind: nat, uid: nat, gid: nat, mode: nat): (Fs, int)
    requires i < |fs| && FindableKids(fs, i)
  {
    if name == "" then (fs, -EINVAL)
    else if FindChild(fs, i, name).Some? then (fs, -EEXIST)
    else if fs[i].kind != DT_DIR then (fs, -2)
    else (Added(fs, i, name, kind, uid, gid, mode), 0)
  }

  lemma AddedOk(fs: Fs, i: nat, name: string, kind: nat, uid: nat, gid: nat, mode: nat)
    requires FsOk(fs) && i < |fs| && fs[i].kind == DT_DIR
    ensures FsOk(Added(fs, i, name, kind, uid, gid, mode))
  {
    var fs' := Added(fs, i, name, kind, uid, gid, mode);
    forall j: nat | j < |fs'|
      ensures NodeOk(fs', j)
    {
      if j < |fs| {
        assert NodeOk(fs, j);
      }
    }
  }

  /** Names that were found before are found at the same node afterwards: new nodes go to the end. */
  lemma {:induction false} FindAfterAppend(fs: Fs, fs': Fs, kids: seq<nat>, c: nat, name: string)
    requires |fs| <= |fs'| && c < |fs'| && (forall j :: 0 <= j < |fs| ==> fs'[j].name == fs[j].name)
    requires forall k :: 0 <= k < |kids| ==> kids[k] < |fs|
    ensures FindFrom(fs', kids, name) == FindFrom(fs, kids, name)
    ensures FindFrom(fs, kids, name).Some? ==> FindFrom(fs', kids + [c], name) == FindFrom(fs, kids, name)
    decreases |kids|
  {
    if kids != [] {
      FindAfterAppend(fs, fs', kids[1..], c, name);
      assert (kids + [c])[1..] == kids[1..] + [c];
    }
  }

  lemma FindAfterCreate(fs: Fs, i: nat, name: string, kind: nat, uid: nat, gid: nat, mode: nat, j: nat, wanted: string)
    requires FsOk(fs) && i < |fs| && j < |fs| && FindableKids(fs, j) && FindChild(fs, j, wanted).Some?
    ensures var fs' := Added(fs, i, name, kind, uid, gid, mode);
            FindableKids(fs', j) &&
            FindChild(fs', j, wanted) == FindChild(fs, j, wanted)
  {
    var fs' := Added(fs, i, name, kind, uid, gid, mode);
    FindAfterAppend(fs, fs', fs[j].children, |fs|, wanted);
  }

  /**
    Sibling names after a successful creation in a directory whose names were unique: they are unique
    again exactly when the name fits the field or its first NAME_MAX characters are not taken.
   */
  lemma UniqueAfterCreate(fs: Fs, i: nat, name: string, kind: nat, uid: nat, gid: nat, mode: nat)
    requires FsOk(fs) && i < |fs| && FindableKids(fs, i) && Unique(ChildNames(fs, fs[i].children))
    requires Created(fs, i, name, kind, uid, gid, mode).1 == 0
    ensures var fs' := Created(fs, i, name, kind, uid, gid, mode).0;
            && FindableKids(fs', i)
            && (Unique(ChildNames(fs', fs'[i].children)) <==>
                  |name| <= NAME_MAX || FindChild(fs, i, Take(name, NAME_MAX)) == None)
  {
    NamesAfterAdd(fs, i, name, kind, uid, gid, mode);
    FoundIffNamed(fs, i, name);
    FoundIffNamed(fs, i, Take(name, NAME_MAX));
    UniqueIff(ChildNames(fs, fs[i].children), name);
  }

  lemma UniqueIff(names: seq<string>, name: string)
    requires Unique(names) && name !in names
    ensures Unique(names + [Stored(name)]) <==> |name| <= NAME_MAX || Take(name, NAME_MAX) !in names
  {
    UniqueAppend(names, Stored(name));
    if |name| == NAME_MAX {
      assert name[..NAME_MAX] == name;
    }
  }

  lemma NamesAfterAdd(fs: Fs, i: nat, name: string, kind: nat, uid: nat, gid: nat, mode: nat)
    requires i < |fs| && FindableKids(fs, i)
    ensures var fs' := Added(fs, i, name, kind, uid, gid, mode);
            FindableKids(fs', i) && ChildNames(fs', fs'[i].children) == ChildNames(fs, fs[i].children) + [Stored(name)]
  {
    var fs', kids := Added(fs, i, name, kind, uid, gid, mode), fs[i].children;
    AddedNodes(fs, i, name, kind, uid, gid, mode, kids);
    SameListing(fs, fs', kids);
    NamesSnoc(fs', kids, |fs|);
  }

  /** What appending a node changes: its parent's list of children. */
  lemma AddedNodes(fs: Fs, i: nat, name: string, kind: nat, uid: nat, gid: nat, mode: nat, kids: seq<nat>)
    requires i < |fs| && forall k :: 0 <= k < |kids| ==> kids[k] < |fs|
    ensures var fs' := Added(fs, i, name, kind, uid, gid, mode);
            && |fs'| == |fs| + 1 && fs'[i].children == fs[i].children + [|fs|] && fs'[|fs|].name == Stored(name)
            && (forall k :: 0 <= k < |kids| ==>
                  fs'[kids[k]].name == fs[kids[k]].name && fs'[kids[k]].kind == fs[kids[k]].kind)
            && (forall j :: 0 <= j < |fs| && j != i ==> fs'[j] == fs[j])
  {
    var fs' := Added(fs, i, name, kind, uid, gid, mode);
    forall k | 0 <= k < |kids|
      ensures fs'[kids[k]].name == fs[kids[k]].name && fs'[kids[k]].kind == fs[kids[k]].kind
    {
      var j := kids[k];
      assert fs'[j] == if j == i then fs[i].(children := fs[i].children + [|fs|]) else fs[j];
    }
  }

  lemma NamesSnoc(fs: Fs, kids: seq<nat>, c: nat)
    requires c < |fs| && forall k :: 0 <= k < |kids| ==> kids[k] < |fs|
    ensures ChildNames(fs, kids + [c]) == ChildNames(fs, kids) + [fs[c].name]
  {
    assert (kids + [c])[..|kids|] == kids;
  }

  /** What a list of children shows depends on their own names and kinds only. */
  lemma SameListing(fs: Fs, fs': Fs, kids: seq<nat>)
    requires forall k :: 0 <= k < |kids| ==>
               && kids[k] < |fs| && kids[k] < |fs'|
               && fs'[kids[k]].name == fs[kids[k]].name && fs'[kids[k]].kind == fs[kids[k]].kind
    ensures ChildNames(fs', kids) == ChildNames(fs, kids) && Listing(fs', kids) == Listing(fs, kids)
  {
  }

  lemma FoundIffNamed(fs: Fs, i: nat, x: string)
    requires i < |fs| && FindableKids(fs, i)
    ensures FindChild(fs, i, x) == None <==> x !in ChildNames(fs, fs[i].children)
  {
    var kids, names := fs[i].children, ChildNames(fs, fs[i].children);
    if x in names {
      var k :| 0 <= k < |names| && names[k] == x;
      assert fs[kids[k]].name == x;
    }
  }

  lemma UniqueAppend(names: seq<string>, x: string)
    requires Unique(names)
    ensures Unique(names + [x]) <==> x !in names
  {
    var all := names + [x];
    if x in names {
      var k :| 0 <= k < |names| && names[k] == x;
      assert all[k] == all[|names|];
    }
  }

  lemma {:induction false} FindLast(fs: Fs, kids: seq<nat>, c: nat, name: string)
    requires c < |fs| && fs[c].name == name && (forall k :: 0 <= k < |kids| ==> kids[k] < |fs|)
    ensures FindFrom(fs, kids + [c], name) == if FindFrom(fs, kids, name) == None then Some(c)
                                              else FindFrom(fs, kids, name)
    decreases |kids|
  {
    if kids == [] {
      assert kids + [c] == [c];
    } else {
      FindLast(fs, kids[1..], c, name);
      assert (kids + [c])[1..] == kids[1..] + [c];
    }
  }

  /**
    A creation fails, and then changes nothing, exactly for an empty name, a name that is taken and a
    parent that is no directory.  Otherwise the stored name then leads to a new node with the given
    attributes below the given parent, unless that stored name was taken before.
   */
  lemma CreatedIsFound(fs: Fs, i: nat, name: string, kind: nat, uid: nat, gid: nat, mode: nat)
    requires FsOk(fs) && i < |fs| && FindableKids(fs, i)
    ensures var (fs', res) := Created(fs, i, name, kind, uid, gid, mode);
            && (res != 0 <==> name == "" || FindChild(fs, i, name).Some? || fs[i].kind != DT_DIR)
            && (res == -EINVAL <==> name == "") && (res == -EEXIST <==> name != "" && FindChild(fs, i, name).Some?)
            && (res != 0 ==> fs' == fs)
            && (res == 0 ==>
                  && FindableKids(fs', i) && |fs'| == |fs| + 1
                  && fs'[|fs|] == KNode(Take(name, NAME_MAX), kind, uid, gid, mode, Some(i), [])
                  && (FindChild(fs', i, Take(name, NAME_MAX)) == Some(|fs|) <==>
                        FindChild(fs, i, Take(name, NAME_MAX)) == None))
  {
    var fs', kids, stored := Added(fs, i, name, kind, uid, gid, mode), fs[i].children, Stored(name);
    AddedNodes(fs, i, name, kind, uid, gid, mode, kids);
    FindAfterAppend(fs, fs', kids, |fs|, stored);
    FindLast(fs', kids, |fs|, stored);
    if FindChild(fs, i, stored).Some? {
      assert FindFrom(fs, kids, stored).value in kids;
    }
  }

  /** Creating a name that is too long twice gives two children of one name. */
  lemma LongNameTwice(fs: Fs, i: nat, name: string, kind: nat, uid: nat, gid: nat, mode: nat)
    requires FsOk(fs) && i < |fs| && fs[i].kind == DT_DIR && |name| > NAME_MAX
    ensures FindableKids(fs, i) && Created(fs, i, name, kind, uid, gid, mode).1 == 0
    ensures var fs1 := Created(fs, i, name, kind, uid, gid, mode).0;
            FindableKids(fs1, i) && Created(fs1, i, name, kind, uid, gid, mode).1 == 0 &&
            var fs2 := Created(fs1, i, name, kind, uid, gid, mode).0;
            FindableKids(fs2, i) && !Unique(ChildNames(fs2, fs2[i].children))
  {
    assert NodeOk(fs, i);
    LongNameNeverFound(fs, i, name);
    var fs1 := Added(fs, i, name, kind, uid, gid, mode);
    AddedOk(fs, i, name, kind, uid, gid, mode);
    assert NodeOk(fs1, i);
    LongNameNeverFound(fs1, i, name);
    var fs2 := Added(fs1, i, name, kind, uid, gid, mode);
    var names, n := ChildNames(fs2, fs2[i].children), |fs[i].children|;
    assert names[n] == Stored(name) && names[n + 1] == Stored(name);
  }

  lemma LongNameNeverFound(fs: Fs, i: nat, name: string)
    requires FsOk(fs) && i < |fs| && |name| > NAME_MAX && FindableKids(fs, i)
    ensures FindChild(fs, i, name) == None
  {
    forall k | 0 <= k < |fs[i].children|
      ensures fs[fs[i].children[k]].name != name
    {
      assert NodeOk(fs, fs[i].children[k]);
    }
  }

  // ---- reading directories ----

  type Dirent = (string, nat) // d_name and type

  function EntryOf(n: KNode): Dirent {
    (Take(n.name, NAME_MAX), n.kind)
  }

  /** One entry per child, in order. */
  function Listing(fs: Fs, kids: seq<nat>): (es: seq<Dirent>)
    requires forall k :: 0 <= k < |kids| ==> kids[k] < |fs|
    ensures |es| == |kids| && forall k :: 0 <= k < |kids| ==> es[k] == EntryOf(fs[kids[k]])
  {
    if kids == [] then [] else Listing(fs, kids[..|kids| - 1]) + [EntryOf(fs[kids[|kids| - 1]])]
  }

  /** How many entries a read returns. */
  function ReadCount(kids: seq<nat>, pos: nat, len: nat): nat {
    if len % DIRENT_SIZE != 0 || pos >= |kids| then 0
    else if len / DIRENT_SIZE < |kids| - pos then len / DIRENT_SIZE
    else |kids| - pos
  }

  /** A read returns as many entries as there are and as fit, and stops for no other reason. */
  lemma ReadsWhatFits(kids: seq<nat>, pos: nat, len: nat)
    requires len % DIRENT_SIZE == 0 && pos <= |kids|
    ensures var n := ReadCount(kids, pos, len);
            && n * DIRENT_SIZE <= len && pos + n <= |kids|
            && (pos + n == |kids| || len < (n + 1) * DIRENT_SIZE)
  {
  }

  datatype DirEvent = Read(len: nat) | Create(parent: nat, name: string, kind: nat, uid: nat, gid: nat, mode: nat)

  /** A file system and one handle: its directory's position and all it has returned so far. */
  datatype Reader = Reader(fs: Fs, pos: nat, got: seq<Dirent>)

  ghost predicate AllKidsFindable(fs: Fs) {
    forall j: nat :: j < |fs| ==> FindableKids(fs, j)
  }

  ghost function DirStep(r: Reader, i: nat, e: DirEvent): Reader
    requires i < |r.fs| && AllKidsFindable(r.fs)
  {
    match e
    case Read(len) =>
      assert FindableKids(r.fs, i);
      var kids := r.fs[i].children;
      var n := ReadCount(kids, r.pos, len);
      if n == 0 then r else r.(pos := r.pos + n, got := r.got + Listing(r.fs, kids)[r.pos..r.pos + n])
    case Create(parent, name, kind, uid, gid, mode) =>
      if parent < |r.fs| then
        assert FindableKids(r.fs, parent);
        r.(fs := Created(r.fs, parent, name, kind, uid, gid, mode).0)
      else r
  }

  lemma AllFindable(fs: Fs)
    requires FsOk(fs)
    ensures AllKidsFindable(fs)
  {
    forall j: nat | j < |fs|
      ensures FindableKids(fs, j)
    {
      assert NodeOk(fs, j);
    }
  }

  ghost predicate ReaderOk(r: Reader, i: nat) {
    && FsOk(r.fs) && i < |r.fs| && FindableKids(r.fs, i)
    && r.pos <= |r.fs[i].children| && r.got == Listing(r.fs, r.fs[i].children)[..r.pos]
    && Unique(ChildNames(r.fs, r.fs[i].children))
  }

  ghost predicate ShortName(e: DirEvent) {
    e.Create? ==> |e.name| <= NAME_MAX
  }

  lemma CreateGrowsListing(fs: Fs, i: nat, p: nat, name: string, kind: nat, uid: nat, gid: nat, mode: nat)
    requires FsOk(fs) && i < |fs| && p < |fs| && FindableKids(fs, i) && FindableKids(fs, p)
    ensures var fs' := Created(fs, p, name, kind, uid, gid, mode).0;
            && FsOk(fs') && |fs| <= |fs'| && FindableKids(fs', i)
            && Listing(fs, fs[i].children) <= Listing(fs', fs'[i].children)
            && ChildNames(fs, fs[i].children) <= ChildNames(fs', fs'[i].children)
            && (i != p ==> ChildNames(fs, fs[i].children) == ChildNames(fs', fs'[i].children))
  {
    var fs', kids := Created(fs, p, name, kind, uid, gid, mode).0, fs[i].children;
    if fs' != fs {
      AddedOk(fs, p, name, kind, uid, gid, mode);
      AddedNodes(fs, p, name, kind, uid, gid, mode, kids);
      SameListing(fs, fs', kids);
      if i == p {
        assert (kids + [|fs|])[..|kids|] == kids;
      } else {
        assert fs'[i].children == kids;
      }
    }
  }

  lemma ReadKeeps(r: Reader, i: nat, len: nat)
    requires ReaderOk(r, i) && AllKidsFindable(r.fs)
    ensures ReaderOk(DirStep(r, i, Read(len)), i)
  {
    var kids, n := r.fs[i].children, ReadCount(r.fs[i].children, r.pos, len);
    var all := Listing(r.fs, kids);
    assert all[..r.pos + n] == all[..r.pos] + all[r.pos..r.pos + n];
  }

  lemma CreateKeeps(r: Reader, i: nat, e: DirEvent)
    requires ReaderOk(r, i) && AllKidsFindable(r.fs) && e.Create? && ShortName(e) && e.parent < |r.fs|
    ensures ReaderOk(DirStep(r, i, e), i)
  {
    assert FindableKids(r.fs, e.parent);
    CreateGrowsListing(r.fs, i, e.parent, e.name, e.kind, e.uid, e.gid, e.mode);
    CreateKeepsUnique(r.fs, i, e.parent, e.name, e.kind, e.uid, e.gid, e.mode);
    var fs' := Created(r.fs, e.parent, e.name, e.kind, e.uid, e.gid, e.mode).0;
    PrefixOfPrefix(Listing(r.fs, r.fs[i].children), Listing(fs', fs'[i].children), r.pos);
  }

  lemma CreateKeepsUnique(fs: Fs, i: nat, p: nat, name: string, kind: nat, uid: nat, gid: nat, mode: nat)
    requires FsOk(fs) && i < |fs| && p < |fs| && FindableKids(fs, i) && FindableKids(fs, p) && |name| <= NAME_MAX
    requires Unique(ChildNames(fs, fs[i].children))
    ensures var fs' := Created(fs, p, name, kind, uid, gid, mode).0;
            i < |fs'| && FindableKids(fs', i) && Unique(ChildNames(fs', fs'[i].children))
  {
    CreateGrowsListing(fs, i, p, name, kind, uid, gid, mode);
    if p == i && Created(fs, i, name, kind, uid, gid, mode).1 == 0 {
      UniqueAfterCreate(fs, i, name, kind, uid, gid, mode);
    }
  }

  lemma PrefixOfPrefix(a: seq<Dirent>, b: seq<Dirent>, n: nat)
    requires a <= b && n <= |a|
    ensures b[..n] == a[..n]
  {
  }

  lemma DirStepKeeps(r: Reader, i: nat, e: DirEvent)
    requires ReaderOk(r, i) && ShortName(e)
    ensures AllKidsFindable(r.fs) && ReaderOk(DirStep(r, i, e), i)
  {
    AllFindable(r.fs);
    if e.Read? {
      ReadKeeps(r, i, e.len);
    } else if e.parent < |r.fs| {
      CreateKeeps(r, i, e);
    }
  }

  ghost function DirRun(r: Reader, i: nat, es: seq<DirEvent>): Reader
    requires ReaderOk(r, i) && forall k :: 0 <= k < |es| ==> ShortName(es[k])
    decreases |es|
  {
    if es == [] then r else
    DirStepKeeps(r, i, es[0]);
    DirRun(DirStep(r, i, es[0]), i, es[1..])
  }

  /**
    Whatever reads and creations come in between, what one handle has returned is a prefix of the
    directory's children: no gap, no repeat, and no two of the names are equal.
   */
  lemma {:induction false} CursorReadsAPrefix(r: Reader, i: nat, es: seq<DirEvent>)
    requires ReaderOk(r, i) && forall k :: 0 <= k < |es| ==> ShortName(es[k])
    ensures var r' := DirRun(r, i, es);
            && i < |r'.fs| && FindableKids(r'.fs, i)
            && |r'.got| == r'.pos <= |r'.fs[i].children|
            && (forall k :: 0 <= k < |r'.got| ==>
                  var child := r'.fs[r'.fs[i].children[k]]; r'.got[k] == (child.name, child.kind))
            && forall j, k :: 0 <= j < k < |r'.got| ==> r'.got[j].0 != r'.got[k].0
    decreases |es|
  {
    if es == [] {
      NamesAreShort(r.fs, i);
    } else {
      DirStepKeeps(r, i, es[0]);
      CursorReadsAPrefix(DirStep(r, i, es[0]), i, es[1..]);
    }
  }

  lemma NamesAreShort(fs: Fs, i: nat)
    requires FsOk(fs) && i < |fs| && FindableKids(fs, i)
    ensures forall k :: 0 <= k < |fs[i].children| ==>
              Listing(fs, fs[i].children)[k] == (ChildNames(fs, fs[i].children)[k], fs[fs[i].children[k]].kind)
  {
    forall k | 0 <= k < |fs[i].children|
      ensures Listing(fs, fs[i].children)[k] == (ChildNames(fs, fs[i].children)[k], fs[fs[i].children[k]].kind)
    {
      var name := fs[fs[i].children[k]].name;
      assert NodeOk(fs, fs[i].children[k]);
      assert Take(name, NAME_MAX) == name;
    }
  }

  /** Where the copying loop of a read stops. */
  lemma LoopCount(kids: seq<nat>, pos: nat, len: nat, k: nat, copied: nat)
    requires len % DIRENT_SIZE == 0 && pos <= k <= |kids| && copied == (k - pos) * DIRENT_SIZE <= len
    requires k == |kids| || copied + DIRENT_SIZE > len
    ensures ReadCount(kids, pos, len) == k - pos == copied / DIRENT_SIZE
  {
  }

  ghost predicate FitsSome(e: DirEvent) {
    e.Read? && e.len % DIRENT_SIZE == 0 && e.len >= DIRENT_SIZE
  }

  /** Reads with room for at least one entry, as many of them as entries are left, return the whole directory. */
  lemma {:induction false} ReadsReachTheEnd(r: Reader, i: nat, es: seq<DirEvent>)
    requires ReaderOk(r, i) && (forall k :: 0 <= k < |es| ==> ShortName(es[k]) && FitsSome(es[k]))
    requires |es| >= |r.fs[i].children| - r.pos
    ensures var r' := DirRun(r, i, es); r'.fs == r.fs && |r'.got| == |r.fs[i].children|
    decreases |es|
  {
    if es != [] {
      assert FitsSome(es[0]);
      DirStepKeeps(r, i, es[0]);
      ReadsWhatFits(r.fs[i].children, r.pos, es[0].len);
      ReadsReachTheEnd(DirStep(r, i, es[0]), i, es[1..]);
    }
  }

  // ---- the code ----

  class Handle {
    const node: nat
    var pos: nat // instance_data->pos

    constructor (n: nat)
      ensures node == n && pos == 0
    {
      node, pos := n, 0;
    }
  }

  class FileSystem {
    var fs: Fs

    ghost predicate Valid()
      reads this
    {
      FsOk(fs)
    }

    /** kernelfs_init's root. */
    constructor (mode: nat)
      ensures Valid() && fs == [KNode("", DT_DIR, 0, 0, mode, None, [])]
    {
      fs := [KNode("", DT_DIR, 0, 0, mode, None, [])];
    }

    /** The search loop of kernelfs_load and kernelfs_create_node. */
    method Search(i: nat, name: string) returns (r: Option<nat>)
      requires Valid() && i < |fs|
      ensures FindableKids(fs, i) && r == FindChild(fs, i, name)
    {
      assert NodeOk(fs, i);
      var kids, k := fs[i].children, 0;
      while k < |kids|
        invariant k <= |kids| && FindFrom(fs, kids, name) == FindFrom(fs, kids[k..], name)
      {
        assert NodeOk(fs, kids[k]);
        StoredCompare(fs[kids[k]].name, name);
        if StrnEq(fs[kids[k]].name, name, NAME_MAX + 1) {
          return Some(kids[k]);
        }
        assert kids[k..][1..] == kids[k + 1..];
        k := k + 1;
      }
      return None;
    }

    /** kernelfs_create_node */
    method CreateNode(i: nat, name: string, kind: nat, uid: nat, gid: nat, mode: nat) returns (res: int)
      requires Valid() && i < |fs|
      modifies this
      ensures Valid() && FindableKids(old(fs), i) && (fs, res) == Created(old(fs), i, name, kind, uid, gid, mode)
    {
      assert NodeOk(fs, i);
      if name == "" {
        return -EINVAL;
      }
      var found := Search(i, name);
      if found.Some? {
        return -EEXIST;
      }
      if fs[i].kind != DT_DIR {
        return -2;
      }
      AddedOk(fs, i, name, kind, uid, gid, mode);
      fs := Added(fs, i, name, kind, uid, gid, mode);
      return 0;
    }

    /** kernelfs_default_read_dir: bytes returned or an error, and the entries put into the buffer. */
    method ReadDir(h: Handle, len: nat) returns (res: int, entries: seq<Dirent>)
      requires Valid() && h.node < |fs|
      modifies h
      ensures FindableKids(fs, h.node)
      ensures res < 0 <==> fs[h.node].kind != DT_DIR || len % DIRENT_SIZE != 0
      ensures fs[h.node].kind != DT_DIR ==> res == -ENOTDIR
      ensures fs[h.node].kind == DT_DIR && len % DIRENT_SIZE != 0 ==> res == -EINVAL
      ensures res < 0 ==> h.pos == old(h.pos) && entries == []
      ensures res >= 0 ==>
                var kids := fs[h.node].children;
                var n := ReadCount(kids, old(h.pos), len);
                && res == n * DIRENT_SIZE && h.pos == old(h.pos) + n
                && (if n == 0 then entries == [] else entries == Listing(fs, kids)[old(h.pos)..old(h.pos) + n])
    {
      assert NodeOk(fs, h.node);
      entries := [];
      if fs[h.node].kind != DT_DIR {
        return -ENOTDIR, [];
      }
      if len % DIRENT_SIZE != 0 {
        return -EINVAL, [];
      }
      var kids, k, i := fs[h.node].children, 0, 0;
      while i < h.pos
        invariant i <= h.pos && k == i <= |kids|
      {
        if k >= |kids| {
          return 0, [];
        }
        k, i := k + 1, i + 1;
      }
      var copied := 0;
      while k < |kids|
        invariant h.pos <= k <= |kids| && copied == (k - h.pos) * DIRENT_SIZE <= len
        invariant entries == Listing(fs, kids)[h.pos..k]
      {
        if copied + DIRENT_SIZE > len {
          break;
        }
        entries := entries + [EntryOf(fs[kids[k]])];
        copied := copied + DIRENT_SIZE;
        k := k + 1;
      }
      LoopCount(kids, h.pos, len, k, copied);
      h.pos := h.pos + copied / DIRENT_SIZE;
      return copied, entries;
    }
  }
}
