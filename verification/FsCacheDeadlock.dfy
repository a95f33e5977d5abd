/**
  Which lookups can bring the cache to a standstill.  A run of the code is a run of module FsCache in
  which readers also wait for announced writers.  Lookups of one path p, beside any number of lookups
  without "..", can never be stuck if and only if p has no "..".
 */
module FsCacheDeadlock {
  import opened Common
  import opened FsCache
  import opened FsCacheLocks
  import opened FsCacheProgress

  /** Some lookup is under way and every lookup under way waits. */
  ghost predicate Stuck(s: State) {
    && (exists t :: 0 <= t < |s.pcs| && !s.pcs[t].Idle?)
    && forall t :: 0 <= t < |s.pcs| && !s.pcs[t].Idle? ==> Blocked(s, t)
  }

  /** Every lookup that begins is one of p or one without "..". */
  ghost predicate Gives(es: seq<Event>, p: seq<string>) {
    forall i :: 0 <= i < |es| && es[i].a.Begin? ==> es[i].a.given == p || ".." !in es[i].a.given
  }

  // ---- single steps and stretches of one lookup ----

  /** A step of the code; lookups begin with p or with a path without "..". */
  ghost predicate Steps(p: seq<string>, s: State, e: Event) {
    Enabled(s, e) && !Blocked(s, e.t) && (e.a.Begin? ==> e.a.given == p || ".." !in e.a.given)
  }

  /** A set of states that no step leaves. */
  ghost predicate Closed(p: seq<string>, r: iset<State>) {
    forall s, e {:trigger Steps(p, s, e)} :: s in r && Steps(p, s, e) ==> Apply(s, e) in r
  }

  lemma ReachStep(p: seq<string>, r: iset<State>, s: State, e: Event, s': State)
    requires Closed(p, r) && s in r && Steps(p, s, e) && Apply(s, e) == s'
    ensures s' in r
  {
  }

  predicate Sized(s: State) {
    |s.pcs| == |s.wanted| && |s.tree.nodes| == |s.tree.kids| == |s.tree.home| == |s.tree.depth| == |s.words| &&
    |s.words| > 0
  }

  /** Thread t goes to pc, and the lock word of n to w. */
  function Moved(s: State, t: nat, pc: Pc, n: NodeId, w: int): State
    requires t < |s.pcs| && n < |s.words|
  {
    s.(pcs := s.pcs[t := pc], words := s.words[n := w])
  }

  function Begun(s: State, t: nat, path: seq<string>): State
    requires t < |s.pcs| == |s.wanted| && |s.words| > 0
  {
    s.(pcs := s.pcs[t := Walk(ROOT, path)], words := s.words[ROOT := s.words[ROOT] + 1], wanted := s.wanted[t := path])
  }

  /** An idle thread begins a lookup and locks the root. */
  lemma Begins(p: seq<string>, rs: iset<State>, s: State, t: nat, path: seq<string>)
    requires Closed(p, rs) && s in rs && Sized(s) && t < |s.pcs| && s.pcs[t].Idle? && MayRead(s, ROOT)
    requires path == p || ".." !in path
    ensures Begun(s, t, path) in rs
  {
    var s1 := Apply(s, Event(t, Begin(path)));
    ReachStep(p, rs, s, Event(t, Begin(path)), s1);
    assert s1.pcs[t := Walk(ROOT, path)] == s.pcs[t := Walk(ROOT, path)];
    ReachStep(p, rs, s1, Event(t, LockRoot), Begun(s, t, path));
  }

  /** Thread t goes to pc. */
  function Gone(s: State, t: nat, pc: Pc): State
    requires t < |s.pcs|
  {
    s.(pcs := s.pcs[t := pc])
  }

  lemma GoneTwice(s: State, t: nat, pc: Pc, pc': Pc, n: NodeId, w: int)
    requires t < |s.pcs| && n < |s.words|
    ensures Gone(Gone(s, t, pc), t, pc') == Gone(s, t, pc') &&
            Moved(Gone(s, t, pc), t, pc', n, w) == Moved(s, t, pc', n, w)
  {
    assert s.pcs[t := pc][t := pc'] == s.pcs[t := pc'];
  }

  lemma StartsScan(p: seq<string>, rs: iset<State>, s: State, t: nat, pos: Ptr)
    requires Closed(p, rs) && s in rs && Sized(s) && t < |s.pcs| && AtToken(s.tree, s.pcs[t]) && Named(s.pcs[t].path)
    requires pos == s.tree.nodes[s.pcs[t].cur].first
    ensures var pc := s.pcs[t]; Gone(s, t, Scan(pc.cur, pc.path, pos, 0, false)) in rs
  {
    ReachStep(p, rs, s, Event(t, StartScan), Gone(s, t, Scan(s.pcs[t].cur, s.pcs[t].path, pos, 0, false)));
  }

  lemma EndsScan(p: seq<string>, rs: iset<State>, s: State, t: nat)
    requires Closed(p, rs)
    requires s in rs && Sized(s) && t < |s.pcs| && s.pcs[t].Scan? && s.pcs[t].pos == Null && !s.pcs[t].wr
    requires Valid(s.tree, s.pcs[t].cur)
    ensures var pc := s.pcs[t]; Moved(s, t, Upgrading(pc.cur, pc.path), pc.cur, s.words[pc.cur] - 1) in rs
  {
    var pc := s.pcs[t];
    ReachStep(p, rs, s, Event(t, ScanMiss), Moved(s, t, Upgrading(pc.cur, pc.path), pc.cur, s.words[pc.cur] - 1));
  }

  /** The directory is empty: the thread gives its lock back and waits to write. */
  lemma MissesInEmpty(p: seq<string>, rs: iset<State>, s: State, t: nat)
    requires Closed(p, rs) && s in rs && Sized(s) && t < |s.pcs| && AtToken(s.tree, s.pcs[t]) && Named(s.pcs[t].path)
    requires s.tree.nodes[s.pcs[t].cur].first == Null
    ensures var pc := s.pcs[t]; Moved(s, t, Upgrading(pc.cur, pc.path), pc.cur, s.words[pc.cur] - 1) in rs
  {
    var pc := s.pcs[t];
    var scan := Scan(pc.cur, pc.path, Null, 0, false);
    StartsScan(p, rs, s, t, Null);
    EndsScan(p, rs, Gone(s, t, scan), t);
    GoneTwice(s, t, scan, Upgrading(pc.cur, pc.path), pc.cur, s.words[pc.cur] - 1);
  }

  lemma PassesOne(p: seq<string>, rs: iset<State>, s: State, t: nat, c: NodeId)
    requires Closed(p, rs) && s in rs && Sized(s) && t < |s.pcs| && s.pcs[t].Scan? && s.pcs[t].pos == To(c) &&
             s.pcs[t].path != []
    requires Valid(s.tree, c) && s.tree.nodes[c].next == Null && s.tree.nodes[c].name != s.pcs[t].path[0]
    ensures var pc := s.pcs[t]; Gone(s, t, Scan(pc.cur, pc.path, Null, pc.at + 1, pc.wr)) in rs
  {
    var pc := s.pcs[t];
    ReachStep(p, rs, s, Event(t, ScanNext), Gone(s, t, Scan(pc.cur, pc.path, Null, pc.at + 1, pc.wr)));
  }

  lemma ScansOne(p: seq<string>, rs: iset<State>, s: State, t: nat, c: NodeId)
    requires Closed(p, rs) && s in rs && Sized(s) && t < |s.pcs| && AtToken(s.tree, s.pcs[t]) && Named(s.pcs[t].path)
    requires s.tree.nodes[s.pcs[t].cur].first == To(c) && Valid(s.tree, c)
    requires s.tree.nodes[c].next == Null && s.tree.nodes[c].name != s.pcs[t].path[0]
    ensures var pc := s.pcs[t]; Gone(s, t, Scan(pc.cur, pc.path, Null, 1, false)) in rs
  {
    var pc := s.pcs[t];
    var first, last := Scan(pc.cur, pc.path, To(c), 0, false), Scan(pc.cur, pc.path, Null, 1, false);
    StartsScan(p, rs, s, t, To(c));
    PassesOne(p, rs, Gone(s, t, first), t, c);
    GoneTwice(s, t, first, last, pc.cur, 0);
  }

  /** The directory has one child of another name: the same. */
  lemma MissesBesideOne(p: seq<string>, rs: iset<State>, s: State, t: nat, c: NodeId)
    requires Closed(p, rs) && s in rs && Sized(s) && t < |s.pcs| && AtToken(s.tree, s.pcs[t]) && Named(s.pcs[t].path)
    requires s.tree.nodes[s.pcs[t].cur].first == To(c) && Valid(s.tree, c)
    requires s.tree.nodes[c].next == Null && s.tree.nodes[c].name != s.pcs[t].path[0]
    ensures var pc := s.pcs[t]; Moved(s, t, Upgrading(pc.cur, pc.path), pc.cur, s.words[pc.cur] - 1) in rs
  {
    var pc := s.pcs[t];
    var last := Scan(pc.cur, pc.path, Null, 1, false);
    ScansOne(p, rs, s, t, c);
    EndsScan(p, rs, Gone(s, t, last), t);
    GoneTwice(s, t, last, Upgrading(pc.cur, pc.path), pc.cur, s.words[pc.cur] - 1);
  }

  lemma Hits(p: seq<string>, rs: iset<State>, s: State, t: nat, c: NodeId)
    requires Closed(p, rs) && s in rs && Sized(s) && t < |s.pcs| && s.pcs[t].Scan? && s.pcs[t].pos == To(c) &&
             s.pcs[t].path != []
    requires Valid(s.tree, c) && s.tree.nodes[c].name == s.pcs[t].path[0]
    ensures var pc := s.pcs[t]; Gone(s, t, DownWait(pc.cur, pc.path, c, pc.wr)) in rs
  {
    var pc := s.pcs[t];
    ReachStep(p, rs, s, Event(t, ScanHit), Gone(s, t, DownWait(pc.cur, pc.path, c, pc.wr)));
  }

  /** The first child has the name. */
  lemma Finds(p: seq<string>, rs: iset<State>, s: State, t: nat, c: NodeId)
    requires Closed(p, rs) && s in rs && Sized(s) && t < |s.pcs| && AtToken(s.tree, s.pcs[t]) && Named(s.pcs[t].path)
    requires s.tree.nodes[s.pcs[t].cur].first == To(c) && Valid(s.tree, c) && s.tree.nodes[c].name == s.pcs[t].path[0]
    ensures var pc := s.pcs[t]; Gone(s, t, DownWait(pc.cur, pc.path, c, false)) in rs
  {
    var pc := s.pcs[t];
    var scan := Scan(pc.cur, pc.path, To(c), 0, false);
    StartsScan(p, rs, s, t, To(c));
    Hits(p, rs, Gone(s, t, scan), t, c);
    GoneTwice(s, t, scan, DownWait(pc.cur, pc.path, c, false), pc.cur, 0);
  }

  lemma LocksChild(p: seq<string>, rs: iset<State>, s: State, t: nat)
    requires Closed(p, rs) && s in rs && Sized(s) && t < |s.pcs| && s.pcs[t].DownWait? && MayRead(s, s.pcs[t].child)
    ensures var pc := s.pcs[t];
            Moved(s, t, DownRelease(pc.cur, pc.path, pc.child, pc.wr), pc.child, s.words[pc.child] + 1) in rs
  {
    var pc := s.pcs[t];
    ReachStep(p, rs, s, Event(t, DownLock),
              Moved(s, t, DownRelease(pc.cur, pc.path, pc.child, pc.wr), pc.child, s.words[pc.child] + 1));
  }

  lemma LeavesParent(p: seq<string>, rs: iset<State>, s: State, t: nat)
    requires Closed(p, rs) && s in rs && Sized(s) && t < |s.pcs| && s.pcs[t].DownRelease? && s.pcs[t].path != [] &&
             Valid(s.tree, s.pcs[t].cur)
    ensures var pc := s.pcs[t];
            Moved(s, t, Walk(pc.child, pc.path[1..]), pc.cur, if pc.wr then 0 else s.words[pc.cur] - 1) in rs
  {
    var pc := s.pcs[t];
    ReachStep(p, rs, s, Event(t, DownUnlock),
              Moved(s, t, Walk(pc.child, pc.path[1..]), pc.cur, if pc.wr then 0 else s.words[pc.cur] - 1));
  }

  /** A thread that waits to write in an empty directory gets the lock. */
  lemma Upgrades(p: seq<string>, rs: iset<State>, s: State, t: nat)
    requires Closed(p, rs) && s in rs && Sized(s) && t < |s.pcs| && s.pcs[t].Upgrading?
    requires Valid(s.tree, s.pcs[t].cur) && s.words[s.pcs[t].cur] == 0 && s.tree.nodes[s.pcs[t].cur].first == Null
    ensures var pc := s.pcs[t]; Moved(s, t, Alloc(pc.cur, pc.path), pc.cur, -1) in rs
  {
    var pc := s.pcs[t];
    var s1 := Apply(s, Event(t, UpgradeLock));
    ReachStep(p, rs, s, Event(t, UpgradeLock), s1);
    var s2 := Moved(s, t, Alloc(pc.cur, pc.path), pc.cur, -1);
    assert s1.pcs[t := Alloc(pc.cur, pc.path)] == s2.pcs;
    ReachStep(p, rs, s1, Event(t, ScanMiss), s2);
  }

  function Loaded(name: string): Node { Node(DT_DIR, name, Null, Null, Null, Null) }

  const CLEARED := Node(DT_UNKNOWN, "", Null, Null, Null, Null)

  lemma ClaimsAndClears(p: seq<string>, rs: iset<State>, s: State, t: nat, c: NodeId)
    requires Closed(p, rs) && s in rs && Sized(s) && t < |s.pcs| && s.pcs[t].Alloc?
    requires Valid(s.tree, c) && s.tree.nodes[c].dtype == FREE
    ensures var pc := s.pcs[t];
            Moved(s, t, Load(pc.cur, pc.path, c), c, 1).(tree := Put(s.tree, c, CLEARED)) in rs
  {
    var pc := s.pcs[t];
    var s1 := Apply(s, Event(t, Claim(c)));
    ReachStep(p, rs, s, Event(t, Claim(c)), s1);
    var s2 := Moved(s, t, Load(pc.cur, pc.path, c), c, 1).(tree := Put(s.tree, c, CLEARED));
    assert s1.pcs[t := Load(pc.cur, pc.path, c)] == s2.pcs && s1.tree.nodes[c := CLEARED] == s2.tree.nodes;
    ReachStep(p, rs, s1, Event(t, Clear), s2);
  }

  /** It claims a free node and loads a directory into it. */
  lemma Loads(p: seq<string>, rs: iset<State>, s: State, t: nat, c: NodeId)
    requires Closed(p, rs) && s in rs && Sized(s) && t < |s.pcs| && s.pcs[t].Alloc? && s.pcs[t].path != []
    requires Valid(s.tree, c) && s.tree.nodes[c].dtype == FREE
    ensures var pc := s.pcs[t];
            Moved(s, t, Link1(pc.cur, pc.path, c), c, 1).(tree := Put(s.tree, c, Loaded(pc.path[0]))) in rs
  {
    var pc := s.pcs[t];
    ClaimsAndClears(p, rs, s, t, c);
    var s2 := Moved(s, t, Load(pc.cur, pc.path, c), c, 1).(tree := Put(s.tree, c, CLEARED));
    var s3 := Moved(s, t, Link1(pc.cur, pc.path, c), c, 1).(tree := Put(s.tree, c, Loaded(pc.path[0])));
    assert s2.pcs[t := Link1(pc.cur, pc.path, c)] == s3.pcs;
    assert s2.tree.nodes[c := Loaded(pc.path[0])] == s3.tree.nodes;
    ReachStep(p, rs, s2, Event(t, LoadOk(DT_DIR)), s3);
  }

  /** It lists the node in the directory, which is empty. */
  lemma Lists(p: seq<string>, rs: iset<State>, s: State, t: nat)
    requires Closed(p, rs) && s in rs && Sized(s) && t < |s.pcs| && s.pcs[t].Link1?
    requires Valid(s.tree, s.pcs[t].cur) && Valid(s.tree, s.pcs[t].child) && s.tree.nodes[s.pcs[t].cur].first == Null
    ensures var pc := s.pcs[t];
            s.(pcs := s.pcs[t := Link4(pc.cur, pc.path, pc.child)],
                             tree := Publish(s.tree, pc.cur, pc.child)) in rs
  {
    var pc := s.pcs[t];
    var s1 := Apply(s, Event(t, StoreNext));
    ReachStep(p, rs, s, Event(t, StoreNext), s1);
    var s2 := s.(pcs := s.pcs[t := Link4(pc.cur, pc.path, pc.child)], tree := Publish(s.tree, pc.cur, pc.child));
    assert s1.pcs[t := Link4(pc.cur, pc.path, pc.child)] == s2.pcs;
    ReachStep(p, rs, s1, Event(t, StoreFirst), s2);
  }

  /** It sets the parent pointer. */
  lemma Adopts(p: seq<string>, rs: iset<State>, s: State, t: nat)
    requires Closed(p, rs) && s in rs && Sized(s) && t < |s.pcs| && s.pcs[t].Link4? && Valid(s.tree, s.pcs[t].child)
    ensures var pc := s.pcs[t];
            Gone(s, t, DownRelease(pc.cur, pc.path, pc.child, true))
                          .(tree := Put(s.tree, pc.child, s.tree.nodes[pc.child].(parent := To(pc.cur)))) in rs
  {
    var pc := s.pcs[t];
    ReachStep(p, rs, s, Event(t, StoreParent), Gone(s, t, DownRelease(pc.cur, pc.path, pc.child, true))
              .(tree := Put(s.tree, pc.child, s.tree.nodes[pc.child].(parent := To(pc.cur)))));
  }

  // ---- a lookup that stands on a node ----

  /** b with thread t at pc, and one more lock of n. */
  function Stand(b: State, t: nat, pc: Pc, n: NodeId): State
    requires t < |b.pcs| && n < |b.words|
  {
    b.(pcs := b.pcs[t := pc], words := b.words[n := b.words[n] + 1])
  }

  lemma StandMoves(b: State, t: nat, pc: Pc, n: NodeId, pc': Pc)
    requires t < |b.pcs| && n < |b.words|
    ensures Gone(Stand(b, t, pc, n), t, pc') == Stand(b, t, pc', n)
    ensures Moved(Stand(b, t, pc, n), t, pc', n, b.words[n]) == Gone(b, t, pc')
  {
    assert b.pcs[t := pc][t := pc'] == b.pcs[t := pc'];
    assert b.words[n := b.words[n] + 1][n := b.words[n]] == b.words;
  }

  /** The node's lock may be read-locked by t. */
  ghost predicate OpenTo(b: State, t: nat, n: NodeId) {
    n < |b.words| && b.words[n] >= 0 && forall u :: 0 <= u < |b.pcs| && u != t ==> !Announced(b.pcs[u], n)
  }

  lemma StandBegins(p: seq<string>, rs: iset<State>, s: State, t: nat, path: seq<string>)
    requires Closed(p, rs) && s in rs && Sized(s) && t < |s.pcs| && s.pcs[t].Idle? && OpenTo(s, t, ROOT)
    requires path == p || ".." !in path
    ensures Stand(s.(wanted := s.wanted[t := path]), t, Walk(ROOT, path), ROOT) in rs
  {
    Begins(p, rs, s, t, path);
  }

  lemma StepsDown(p: seq<string>, rs: iset<State>, b: State, t: nat, i: NodeId, path: seq<string>, c: NodeId)
    requires Closed(p, rs) && Sized(b) && t < |b.pcs| && i < |b.words| && i != c && Named(path) && OpenTo(b, t, c)
    requires Stand(b, t, DownWait(i, path, c, false), i) in rs
    ensures Stand(b, t, Walk(c, path[1..]), c) in rs
  {
    var s1 := Stand(b, t, DownWait(i, path, c, false), i);
    LocksChild(p, rs, s1, t);
    var s2 := Moved(s1, t, DownRelease(i, path, c, false), c, s1.words[c] + 1);
    LeavesParent(p, rs, s2, t);
    var s3 := Stand(b, t, Walk(c, path[1..]), c);
    assert s2.pcs[t := Walk(c, path[1..])] == s3.pcs;
    assert s2.words[i := s2.words[i] - 1] == s3.words;
  }

  /** From a directory to its first child. */
  lemma Descends(p: seq<string>, rs: iset<State>, b: State, t: nat, i: NodeId, path: seq<string>, c: NodeId)
    requires Closed(p, rs) && Sized(b) && t < |b.pcs| && i < |b.words| && i != c && Named(path) && OpenTo(b, t, c)
    requires b.tree.nodes[i].dtype == DT_DIR && b.tree.nodes[i].first == To(c) && b.tree.nodes[c].name == path[0]
    requires Stand(b, t, Walk(i, path), i) in rs
    ensures Stand(b, t, Walk(c, path[1..]), c) in rs
  {
    Finds(p, rs, Stand(b, t, Walk(i, path), i), t, c);
    StandMoves(b, t, Walk(i, path), i, DownWait(i, path, c, false));
    StepsDown(p, rs, b, t, i, path, c);
  }

  // ---- a chain of directories ----

  predicate IsName(c: string) { c != "." && c != ".." }

  predicate AllNamed(names: seq<string>) {
    forall i :: 0 <= i < |names| ==> IsName(names[i])
  }

  /** Node i holds the directory names[i - 1] of node i - 1 and lists node i + 1 alone; all other nodes are free. */
  ghost predicate Chain(tr: Tree, names: seq<string>) {
    && |names| < |tr.nodes| && tr.nodes[ROOT].parent == Null
    && (forall i :: 0 <= i <= |names| ==>
          tr.nodes[i].dtype == DT_DIR && tr.nodes[i].first == (if i < |names| then To(i + 1) else Null))
    && (forall i :: 0 < i <= |names| ==>
          tr.nodes[i].name == names[i - 1] && tr.nodes[i].parent == To(i - 1) && tr.nodes[i].next == Null)
    && (forall i :: |names| < i < |tr.nodes| ==> tr.nodes[i].dtype == FREE)
  }

  /** A lookup of names[i..j] + rest goes from node i down to node j. */
  lemma {:induction false} WalksDown(p: seq<string>, rs: iset<State>, b: State, t: nat, names: seq<string>,
                                     i: nat, j: nat, rest: seq<string>)
    requires Closed(p, rs) && Sized(b) && t < |b.pcs| && Chain(b.tree, names) && AllNamed(names) && i <= j <= |names|
    requires forall n :: i < n <= j ==> OpenTo(b, t, n)
    requires Stand(b, t, Walk(i, names[i..j] + rest), i) in rs
    ensures Stand(b, t, Walk(j, rest), j) in rs
    decreases j - i
  {
    var path := names[i..j] + rest;
    if i == j {
      assert path == rest;
    } else {
      assert path[0] == names[i] && path[1..] == names[i + 1..j] + rest;
      Descends(p, rs, b, t, i, path, i + 1);
      WalksDown(p, rs, b, t, names, i + 1, j, rest);
    }
  }

  // ---- a lookup that makes the chain ----

  /** A lookup alone on the last node of the chain asks for a directory that is not cached: it gets the write lock. */
  lemma GetsToWrite(p: seq<string>, rs: iset<State>, b: State, t: nat, k: nat, path: seq<string>)
    requires Closed(p, rs) && Sized(b) && t < |b.pcs| && k < |b.words| && Named(path) && b.words[k] == 0
    requires b.tree.nodes[k].dtype == DT_DIR && b.tree.nodes[k].first == Null
    requires Stand(b, t, Walk(k, path), k) in rs
    ensures Moved(b, t, Alloc(k, path), k, -1) in rs
  {
    MissesInEmpty(p, rs, Stand(b, t, Walk(k, path), k), t);
    StandMoves(b, t, Walk(k, path), k, Upgrading(k, path));
    var s1 := Gone(b, t, Upgrading(k, path));
    Upgrades(p, rs, s1, t);
    assert s1.pcs[t := Alloc(k, path)] == b.pcs[t := Alloc(k, path)];
  }

  /** The tree after a directory has been linked below k. */
  function Linked(tr: Tree, k: NodeId, name: string, c: NodeId): Tree
    requires |tr.nodes| == |tr.kids| == |tr.home| == |tr.depth| && k < |tr.nodes| && c < |tr.nodes|
  {
    var tr1 := Publish(Put(tr, c, Loaded(name)), k, c);
    Put(tr1, c, tr1.nodes[c].(parent := To(k)))
  }

  lemma LinkedIsChain(tr: Tree, names: seq<string>, name: string)
    requires |tr.nodes| == |tr.kids| == |tr.home| == |tr.depth| && Chain(tr, names) && |names| + 1 < |tr.nodes|
    ensures var tr' := Linked(tr, |names|, name, |names| + 1);
            Chain(tr', names + [name]) && |tr'.nodes| == |tr'.kids| == |tr'.home| == |tr'.depth| == |tr.nodes|
  {
  }

  /** Thread t links c below k: it has k for writing and c for reading. */
  function Linking(b: State, t: nat, tr: Tree, pc: Pc, k: NodeId, c: NodeId): State
    requires t < |b.pcs| && k < |b.words| && c < |b.words|
  {
    State(tr, b.pcs[t := pc], b.words[k := -1][c := 1], b.wanted)
  }

  lemma Publishes(p: seq<string>, rs: iset<State>, b: State, t: nat, k: nat, path: seq<string>, c: nat)
    requires Closed(p, rs) && Sized(b) && t < |b.pcs| && k < |b.words| && c < |b.words| && k != c && Named(path)
    requires b.tree.nodes[k].first == Null && b.tree.nodes[c].dtype == FREE
    requires Moved(b, t, Alloc(k, path), k, -1) in rs
    ensures Linking(b, t, Publish(Put(b.tree, c, Loaded(path[0])), k, c), Link4(k, path, c), k, c) in rs
  {
    var s1 := Moved(b, t, Alloc(k, path), k, -1);
    Loads(p, rs, s1, t, c);
    var s2 := Moved(s1, t, Link1(k, path, c), c, 1).(tree := Put(b.tree, c, Loaded(path[0])));
    Lists(p, rs, s2, t);
    assert s2.pcs[t := Link4(k, path, c)] == b.pcs[t := Link4(k, path, c)];
  }

  lemma SetsParent(p: seq<string>, rs: iset<State>, b: State, t: nat, k: nat, path: seq<string>, c: nat)
    requires Closed(p, rs) && Sized(b) && t < |b.pcs| && k < |b.words| && c < |b.words| && k != c && Named(path)
    requires Linking(b, t, Publish(Put(b.tree, c, Loaded(path[0])), k, c), Link4(k, path, c), k, c) in rs
    ensures Linking(b, t, Linked(b.tree, k, path[0], c), DownRelease(k, path, c, true), k, c) in rs
  {
    var s1 := Linking(b, t, Publish(Put(b.tree, c, Loaded(path[0])), k, c), Link4(k, path, c), k, c);
    Adopts(p, rs, s1, t);
    assert s1.pcs[t := DownRelease(k, path, c, true)] == b.pcs[t := DownRelease(k, path, c, true)];
  }

  lemma LeavesLinked(p: seq<string>, rs: iset<State>, b: State, t: nat, k: nat, path: seq<string>, c: nat, tr: Tree)
    requires Closed(p, rs)
    requires Sized(b) && Sized(b.(tree := tr)) && t < |b.pcs| && k < |b.words| && c < |b.words| && k != c && Named(path)
    requires b.words[k] == 0 && b.words[c] == 0
    requires Linking(b, t, tr, DownRelease(k, path, c, true), k, c) in rs
    ensures Stand(b.(tree := tr), t, Walk(c, path[1..]), c) in rs
  {
    var s1 := Linking(b, t, tr, DownRelease(k, path, c, true), k, c);
    LeavesParent(p, rs, s1, t);
    assert s1.pcs[t := Walk(c, path[1..])] == b.pcs[t := Walk(c, path[1..])];
    assert s1.words[k := 0] == b.words[c := 1];
  }

  /** One more directory. */
  lemma GrowsChain(p: seq<string>, rs: iset<State>, b: State, t: nat, names: seq<string>, path: seq<string>)
    returns (b': State)
    requires Closed(p, rs) && Sized(b) && t < |b.pcs| && Chain(b.tree, names) && |names| + 1 < |b.words| && Named(path)
    requires b.words[|names|] == 0 && b.words[|names| + 1] == 0
    requires Stand(b, t, Walk(|names|, path), |names|) in rs
    ensures b' == b.(tree := b'.tree) && Sized(b') && Chain(b'.tree, names + [path[0]])
    ensures Stand(b', t, Walk(|names| + 1, path[1..]), |names| + 1) in rs
  {
    var k := |names|;
    GetsToWrite(p, rs, b, t, k, path);
    Publishes(p, rs, b, t, k, path, k + 1);
    SetsParent(p, rs, b, t, k, path, k + 1);
    LinkedIsChain(b.tree, names, path[0]);
    LeavesLinked(p, rs, b, t, k, path, k + 1, Linked(b.tree, k, path[0], k + 1));
    b' := b.(tree := Linked(b.tree, k, path[0], k + 1));
  }

  /** The names of a path, without "." */
  function Names(path: seq<string>): seq<string> {
    if path == [] then []
    else
      var last := path[|path| - 1];
      Names(path[..|path| - 1]) + if last == "." then [] else [last]
  }

  lemma NamesSnoc(path: seq<string>, k: nat)
    requires k < |path|
    ensures Names(path[..k + 1]) == Names(path[..k]) + if path[k] == "." then [] else [path[k]]
  {
    assert path[..k + 1][..k] == path[..k];
  }

  lemma {:induction false} NamesAreNames(path: seq<string>)
    requires ".." !in path
    ensures AllNamed(Names(path)) && |Names(path)| <= |path|
  {
    if path != [] {
      NamesAreNames(path[..|path| - 1]);
    }
  }

  lemma PassesDot(p: seq<string>, rs: iset<State>, b: State, t: nat, n: NodeId, path: seq<string>)
    requires Closed(p, rs)
    requires Sized(b) && t < |b.pcs| && n < |b.words| && b.tree.nodes[n].dtype == DT_DIR && path != [] && path[0] == "."
    requires Stand(b, t, Walk(n, path), n) in rs
    ensures Stand(b, t, Walk(n, path[1..]), n) in rs
  {
    StandMoves(b, t, Walk(n, path), n, Walk(n, path[1..]));
    ReachStep(p, rs, Stand(b, t, Walk(n, path), n), Event(t, Dot), Stand(b, t, Walk(n, path[1..]), n));
  }

  /** One token that is not "..". */
  lemma WalksOne(p: seq<string>, rs: iset<State>, b: State, t: nat, names: seq<string>, path: seq<string>)
    returns (b': State)
    requires Closed(p, rs)
    requires Sized(b) && t < |b.pcs| && path != [] && path[0] != ".." && Chain(b.tree, names) && |names| + 1 < |b.words|
    requires b.words[|names|] == 0 && b.words[|names| + 1] == 0
    requires Stand(b, t, Walk(|names|, path), |names|) in rs
    ensures b' == b.(tree := b'.tree) && Sized(b')
    ensures var names' := names + if path[0] == "." then [] else [path[0]];
            Chain(b'.tree, names') && Stand(b', t, Walk(|names'|, path[1..]), |names'|) in rs
  {
    if path[0] == "." {
      PassesDot(p, rs, b, t, |names|, path);
      assert names + [] == names;
      b' := b;
    } else {
      b' := GrowsChain(p, rs, b, t, names, path);
    }
  }

  /** The part of p before its first ".." is walked, and makes its directories. */
  lemma {:induction false} WalksAndMakes(p: seq<string>, rs: iset<State>, b: State, t: nat, j: nat, k: nat)
    returns (b': State)
    requires Closed(p, rs)
    requires Sized(b) && t < |b.pcs| && j <= k <= |p| && ".." !in p[..k] && Chain(b.tree, Names(p[..j]))
    requires k < |b.words| && forall n :: 0 <= n < |b.words| ==> b.words[n] == 0
    requires |Names(p[..j])| <= j && Stand(b, t, Walk(|Names(p[..j])|, p[j..]), |Names(p[..j])|) in rs
    ensures b' == b.(tree := b'.tree) && Sized(b') && Chain(b'.tree, Names(p[..k])) && |Names(p[..k])| <= k
    ensures Stand(b', t, Walk(|Names(p[..k])|, p[k..]), |Names(p[..k])|) in rs
    decreases k - j
  {
    if j == k {
      b' := b;
    } else {
      assert p[..k][j] == p[j] && p[j..][1..] == p[j + 1..];
      NamesSnoc(p, j);
      b' := WalksOne(p, rs, b, t, Names(p[..j]), p[j..]);
      b' := WalksAndMakes(p, rs, b', t, j + 1, k);
    }
  }

  // ---- four lookups in a circle ----

  /** Where the first ".." of a path stands. */
  predicate TurnsAt(p: seq<string>, k: nat) {
    k < |p| && p[k] == ".." && ".." !in p[..k]
  }

  lemma {:induction false} FirstTurn(p: seq<string>) returns (k: nat)
    requires ".." in p
    ensures TurnsAt(p, k)
  {
    if p[0] == ".." {
      k := 0;
    } else {
      assert p == [p[0]] + p[1..];
      k := FirstTurn(p[1..]);
      assert p[..k + 1] == [p[0]] + p[1..][..k];
      k := k + 1;
    }
  }

  /** A freshly initialised cache, with the wish of thread 0. */
  lemma InitStands(p: seq<string>, rs: iset<State>, pool: nat, threads: nat) returns (b: State)
    requires pool > 0 && threads > 0 && Closed(p, rs) && Init(pool, threads) in rs
    ensures b == Init(pool, threads).(wanted := b.wanted) && Sized(b) && b.wanted == seq(threads, _ => [])[0 := p]
    ensures Chain(b.tree, []) && forall n :: 0 <= n < |b.words| ==> b.words[n] == 0
    ensures Stand(b, 0, Walk(ROOT, p), ROOT) in rs
  {
    var s0 := Init(pool, threads);
    StandBegins(p, rs, s0, 0, p);
    b := s0.(wanted := s0.wanted[0 := p]);
  }

  /** Thread 0 stands before its first "..", alone. */
  lemma FirstArrives(p: seq<string>, rs: iset<State>, k: nat, threads: nat) returns (b: State)
    requires TurnsAt(p, k) && threads > 0 && Closed(p, rs) && Init(k + 1, threads) in rs
    ensures b == Init(k + 1, threads).(tree := b.tree, wanted := b.wanted) && Sized(b)
    ensures b.wanted == seq(threads, _ => [])[0 := p] && Chain(b.tree, Names(p[..k])) && |Names(p[..k])| <= k
    ensures Stand(b, 0, Walk(|Names(p[..k])|, p[k..]), |Names(p[..k])|) in rs
  {
    b := InitStands(p, rs, k + 1, threads);
    assert p[..0] == [] && p[0..] == p;
    b := WalksAndMakes(p, rs, b, 0, 0, k);
  }

  /** Thread t begins a lookup of names[..j] + rest and comes down to node j. */
  lemma ComesDown(p: seq<string>, rs: iset<State>, s: State, t: nat, names: seq<string>, j: nat, path: seq<string>,
                  rest: seq<string>)
    requires Closed(p, rs)
    requires s in rs && Sized(s) && t < |s.pcs| && s.pcs[t].Idle? && Chain(s.tree, names) && AllNamed(names)
    requires j <= |names| && path == names[..j] + rest && AllNamed(rest) && forall n :: 0 <= n <= j ==> OpenTo(s, t, n)
    ensures Stand(s.(wanted := s.wanted[t := path]), t, Walk(j, rest), j) in rs
  {
    var b := s.(wanted := s.wanted[t := path]);
    StandBegins(p, rs, s, t, path);
    assert names[0..j] + rest == path;
    forall n | 0 < n <= j
      ensures OpenTo(b, t, n)
    {
      assert OpenTo(s, t, n);
    }
    WalksDown(p, rs, b, t, names, 0, j, rest);
  }

  /** Thread t comes down to the last node and waits there to write y. */
  lemma WaitsBelow(p: seq<string>, rs: iset<State>, s: State, t: nat, names: seq<string>, y: string)
    requires Closed(p, rs)
    requires s in rs && Sized(s) && t < |s.pcs| && s.pcs[t].Idle? && Chain(s.tree, names) && AllNamed(names)
    requires IsName(y) && forall n :: 0 <= n <= |names| ==> OpenTo(s, t, n)
    ensures Gone(s.(wanted := s.wanted[t := names + [y]]), t, Upgrading(|names|, [y])) in rs
  {
    var h, b := |names|, s.(wanted := s.wanted[t := names + [y]]);
    assert names[..h] == names;
    ComesDown(p, rs, s, t, names, h, names + [y], [y]);
    MissesInEmpty(p, rs, Stand(b, t, Walk(h, [y]), h), t);
    StandMoves(b, t, Walk(h, [y]), h, Upgrading(h, [y]));
  }

  /** Thread t comes down to the last node but one and waits for the last. */
  lemma WaitsForLast(p: seq<string>, rs: iset<State>, s: State, t: nat, names: seq<string>, h: nat)
    requires Closed(p, rs)
    requires s in rs && Sized(s) && t < |s.pcs| && s.pcs[t].Idle? && Chain(s.tree, names) && AllNamed(names)
    requires h == |names| > 0 && forall n :: 0 <= n < h ==> OpenTo(s, t, n)
    ensures Stand(s.(wanted := s.wanted[t := names]), t, DownWait(h - 1, [names[h - 1]], h, false), h - 1) in rs
  {
    var b, rest := s.(wanted := s.wanted[t := names]), [names[h - 1]];
    assert names[..h - 1] + rest == names;
    ComesDown(p, rs, s, t, names, h - 1, names, rest);
    Finds(p, rs, Stand(b, t, Walk(h - 1, rest), h - 1), t, h);
    StandMoves(b, t, Walk(h - 1, rest), h - 1, DownWait(h - 1, rest, h, false));
  }

  /** Thread t comes down to the last node but one and waits there to write x beside the last. */
  lemma WaitsBeside(p: seq<string>, rs: iset<State>, s: State, t: nat, names: seq<string>, h: nat, x: string)
    requires Closed(p, rs)
    requires s in rs && Sized(s) && t < |s.pcs| && s.pcs[t].Idle? && Chain(s.tree, names) && AllNamed(names)
    requires h == |names| > 0 && IsName(x) && x != names[h - 1] && forall n :: 0 <= n < h ==> OpenTo(s, t, n)
    ensures Gone(s.(wanted := s.wanted[t := names[..h - 1] + [x]]), t, Upgrading(h - 1, [x])) in rs
  {
    var path := names[..h - 1] + [x];
    var b := s.(wanted := s.wanted[t := path]);
    ComesDown(p, rs, s, t, names, h - 1, path, [x]);
    MissesBesideOne(p, rs, Stand(b, t, Walk(h - 1, [x]), h - 1), t, h);
    StandMoves(b, t, Walk(h - 1, [x]), h - 1, Upgrading(h - 1, [x]));
  }

  /** Four lookups, of which thread 0 stands on node h. */
  function Four(b: State, h: nat, r: seq<string>, f: Pc, g: Pc, e: Pc, words: seq<int>, wanted: seq<seq<string>>): State
  {
    State(b.tree, [Walk(h, r), f, g, e], words, wanted)
  }

  lemma FourMoves(s: State, b: State, h: nat, r: seq<string>, f: Pc, g: Pc, e: Pc, words: seq<int>,
                  wanted: seq<seq<string>>, path: seq<string>, pc: Pc)
    requires s == Four(b, h, r, f, g, e, words, wanted) && |wanted| == 4
    ensures Gone(s.(wanted := s.wanted[3 := path]), 3, pc) == Four(b, h, r, f, g, pc, words, wanted[3 := path])
    ensures Gone(s.(wanted := s.wanted[2 := path]), 2, pc) == Four(b, h, r, f, pc, e, words, wanted[2 := path])
  {
  }

  lemma FourStands(s: State, b: State, h: nat, r: seq<string>, f: Pc, g: Pc, e: Pc, words: seq<int>,
                   wanted: seq<seq<string>>, path: seq<string>, pc: Pc, n: NodeId)
    requires s == Four(b, h, r, f, g, e, words, wanted) && |wanted| == 4 && n < |words|
    ensures Stand(s.(wanted := s.wanted[1 := path]), 1, pc, n) ==
            Four(b, h, r, pc, g, e, words[n := words[n] + 1], wanted[1 := path])
  {
  }

  /** The chain, four threads, and no lock held for writing. */
  ghost predicate Ready(b: State, names: seq<string>, words: seq<int>, wanted: seq<seq<string>>) {
    && |b.tree.nodes| == |b.tree.kids| == |b.tree.home| == |b.tree.depth| == |words| && |wanted| == 4
    && Chain(b.tree, names) && AllNamed(names) && names != [] && forall n :: 0 <= n < |words| ==> words[n] >= 0
  }

  lemma FourOpen(s: State, b: State, h: nat, r: seq<string>, f: Pc, g: Pc, e: Pc, words: seq<int>,
                 wanted: seq<seq<string>>, t: nat, m: nat)
    requires s == Four(b, h, r, f, g, e, words, wanted) && m <= |words|
    requires forall n :: 0 <= n < m ==> words[n] >= 0 && !Announced(f, n) && !Announced(g, n) && !Announced(e, n)
    ensures forall n :: 0 <= n < m ==> OpenTo(s, t, n)
  {
  }

  /** Thread 3 waits to write in h. */
  lemma SecondArrives(p: seq<string>, rs: iset<State>, s: State, b: State, r: seq<string>, names: seq<string>, h: nat,
                      y: string, words: seq<int>, wanted: seq<seq<string>>) returns (s': State)
    requires Closed(p, rs) && Ready(b, names, words, wanted) && IsName(y) && h == |names|
    requires s in rs && s == Four(b, h, r, Idle, Idle, Idle, words, wanted)
    ensures s' in rs
    ensures s' == Four(b, h, r, Idle, Idle, Upgrading(h, [y]), words, wanted[3 := names + [y]])
  {
    FourOpen(s, b, h, r, Idle, Idle, Idle, words, wanted, 3, h + 1);
    WaitsBelow(p, rs, s, 3, names, y);
    FourMoves(s, b, h, r, Idle, Idle, Idle, words, wanted, names + [y], Upgrading(h, [y]));
    s' := Gone(s.(wanted := s.wanted[3 := names + [y]]), 3, Upgrading(h, [y]));
  }

  /** Thread 1 stands above h and waits for it. */
  lemma ThirdArrives(p: seq<string>, rs: iset<State>, s: State, b: State, r: seq<string>, names: seq<string>, h: nat,
                     f: Pc, e: Pc, words: seq<int>, wanted: seq<seq<string>>) returns (s': State)
    requires Closed(p, rs) && Ready(b, names, words, wanted) && e.Upgrading? && e.cur == h == |names|
    requires f == DownWait(h - 1, [names[h - 1]], h, false)
    requires s in rs && s == Four(b, h, r, Idle, Idle, e, words, wanted)
    ensures s' in rs
    ensures s' == Four(b, h, r, f, Idle, e, words[h - 1 := words[h - 1] + 1], wanted[1 := names])
  {
    FourOpen(s, b, h, r, Idle, Idle, e, words, wanted, 1, h);
    WaitsForLast(p, rs, s, 1, names, h);
    FourStands(s, b, h, r, Idle, Idle, e, words, wanted, names, f, h - 1);
    s' := Stand(s.(wanted := s.wanted[1 := names]), 1, f, h - 1);
  }

  /** Thread 2 waits to write above h. */
  lemma FourthArrives(p: seq<string>, rs: iset<State>, s: State, b: State, r: seq<string>, names: seq<string>, h: nat,
                      x: string, f: Pc, e: Pc, words: seq<int>, wanted: seq<seq<string>>) returns (s': State)
    requires Closed(p, rs) && Ready(b, names, words, wanted) && e.Upgrading? && e.cur == h == |names| && f.DownWait?
    requires IsName(x) && x != names[h - 1]
    requires s in rs && s == Four(b, h, r, f, Idle, e, words, wanted)
    ensures s' in rs
    ensures s' == Four(b, h, r, f, Upgrading(h - 1, [x]), e, words, wanted[2 := names[..h - 1] + [x]])
  {
    var path := names[..h - 1] + [x];
    FourOpen(s, b, h, r, f, Idle, e, words, wanted, 2, h);
    WaitsBeside(p, rs, s, 2, names, h, x);
    FourMoves(s, b, h, r, f, Idle, e, words, wanted, path, Upgrading(h - 1, [x]));
    s' := Gone(s.(wanted := s.wanted[2 := path]), 2, Upgrading(h - 1, [x]));
  }

  function Circle(b: State, r: seq<string>, names: seq<string>, x: string, y: string, wanted: seq<seq<string>>): State
    requires |b.words| > |names| > 0
  {
    var h := |names|;
    Four(b, h, r, DownWait(h - 1, [names[h - 1]], h, false), Upgrading(h - 1, [x]), Upgrading(h, [y]),
         b.words[h := 1][h - 1 := 1], wanted)
  }

  function Wanted(p: seq<string>, names: seq<string>, x: string, y: string): seq<seq<string>>
    requires names != []
  {
    [p, names, names[..|names| - 1] + [x], names + [y]]
  }

  lemma OthersArrive(p: seq<string>, rs: iset<State>, r: seq<string>, s1: State, b: State, names: seq<string>, h: nat,
                     x: string, y: string) returns (s: State)
    requires Closed(p, rs)
    requires Sized(b) && b.pcs == [Idle, Idle, Idle, Idle] && b.wanted == [p, [], [], []] && h == |names|
    requires Ready(b, names, b.words, b.wanted) && IsName(x) && IsName(y) && x != names[h - 1]
    requires b.words[h] == 0 && b.words[h - 1] == 0
    requires s1 in rs && s1 == Stand(b, 0, Walk(h, r), h)
    ensures s in rs && s == Circle(b, r, names, x, y, Wanted(p, names, x, y))
  {
    var w1, e, f := b.words[h := 1], Upgrading(h, [y]), DownWait(h - 1, [names[h - 1]], h, false);
    var wanted2 := b.wanted[3 := names + [y]];
    assert s1 == Four(b, h, r, Idle, Idle, Idle, w1, b.wanted);
    var s2 := SecondArrives(p, rs, s1, b, r, names, h, y, w1, b.wanted);
    var s3 := ThirdArrives(p, rs, s2, b, r, names, h, f, e, w1, wanted2);
    s := FourthArrives(p, rs, s3, b, r, names, h, x, f, e, w1[h - 1 := 1], wanted2[1 := names]);
    assert wanted2[1 := names][2 := names[..h - 1] + [x]] == Wanted(p, names, x, y);
  }

  /** Thread 0 turns back: now every thread waits for another one. */
  lemma Closes(p: seq<string>, rs: iset<State>, r: seq<string>, s1: State, b: State, names: seq<string>,
               x: string, y: string, wanted: seq<seq<string>>) returns (s: State)
    requires Closed(p, rs)
    requires Sized(b) && |wanted| == 4 && Chain(b.tree, names) && names != [] && r != [] && r[0] == ".."
    requires s1 in rs && |b.words| > |names| && s1 == Circle(b, r, names, x, y, wanted)
    ensures s in rs && |s.pcs| == 4 && s.wanted == wanted
    ensures forall t :: 0 <= t < 4 ==> Blocked(s, t)
  {
    s := Apply(s1, Event(0, Up));
    ReachStep(p, rs, s1, Event(0, Up), s);
    assert Announced(s.pcs[2], |names| - 1) && Announced(s.pcs[3], |names|);
  }

  /**
    A path with a name before its first "..": the lookup of p stands on the directory it has come to
    and waits for the one above, a second one stands above and waits for that directory, and two more
    wait to write in the one and in the other.  Every thread is blocked.
   */
  lemma FourLookups(p: seq<string>, rs: iset<State>, k: nat, x: string, y: string) returns (s: State)
    requires Closed(p, rs) && Init(k + 1, 4) in rs
    requires TurnsAt(p, k) && Names(p[..k]) != [] && IsName(x) && IsName(y)
    requires x != Names(p[..k])[|Names(p[..k])| - 1]
    ensures var names := Names(p[..k]);
            && s in rs && |s.pcs| == 4
            && s.wanted == [p, names, names[..|names| - 1] + [x], names + [y]]
    ensures forall t :: 0 <= t < 4 ==> Blocked(s, t)
  {
    var names := Names(p[..k]);
    var b := FirstArrives(p, rs, k, 4);
    NamesAreNames(p[..k]);
    assert b.pcs == [Idle, Idle, Idle, Idle] && b.wanted == [p, [], [], []];
    var s1 := Stand(b, 0, Walk(|names|, p[k..]), |names|);
    s := OthersArrive(p, rs, p[k..], s1, b, names, |names|, x, y);
    s := Closes(p, rs, p[k..], s, b, names, x, y, Wanted(p, names, x, y));
  }

  // ---- a lookup above the root ----

  /** Nothing but "." before the first "..": the lookup shuts the root, and the next one waits for ever. */
  lemma ClimbsAndWaits(p: seq<string>, rs: iset<State>, k: nat) returns (s: State)
    requires TurnsAt(p, k) && Names(p[..k]) == [] && Closed(p, rs) && Init(k + 1, 1) in rs
    ensures s in rs && |s.pcs| == 1 && s.pcs[0].EnterRoot? && Blocked(s, 0)
  {
    var b := FirstArrives(p, rs, k, 1);
    var s1 := Stand(b, 0, Walk(ROOT, p[k..]), ROOT);
    assert s1.tree.nodes[ROOT].parent.Null?;
    var s2 := Apply(s1, Event(0, NoParent));
    ReachStep(p, rs, s1, Event(0, NoParent), s2);
    var s3 := Apply(s2, Event(0, ReleaseAgain));
    ReachStep(p, rs, s2, Event(0, ReleaseAgain), s3);
    s := Apply(s3, Event(0, Begin(p)));
    ReachStep(p, rs, s3, Event(0, Begin(p)), s);
  }

  // ---- the exact condition ----

  ghost predicate Reached(p: seq<string>, s0: State, s: State) {
    exists es :: CodeRun(s0, es) && Gives(es, p) && Exec(s0, es) == s
  }

  lemma ReachOne(p: seq<string>, s0: State, s: State, e: Event)
    requires Reached(p, s0, s) && Steps(p, s, e)
    ensures Reached(p, s0, Apply(s, e))
  {
    var es :| CodeRun(s0, es) && Gives(es, p) && Exec(s0, es) == s;
    RunSnoc(s0, es, e);
    UnblockedSnoc(s0, es, e);
    assert CodeRun(s0, es + [e]) && Gives(es + [e], p);
  }

  lemma ReachedStates(p: seq<string>, pool: nat, threads: nat) returns (rs: iset<State>)
    requires pool > 0
    ensures Closed(p, rs) && Init(pool, threads) in rs && forall s :: s in rs ==> Reached(p, Init(pool, threads), s)
  {
    var s0 := Init(pool, threads);
    assert CodeRun(s0, []) && Exec(s0, []) == s0 && Gives([], p);
    rs := iset s | Reached(p, s0, s);
    forall s, e | s in rs && Steps(p, s, e)
      ensures Apply(s, e) in rs
    {
      ReachOne(p, s0, s, e);
    }
  }

  /** The lookups of "c/..", "c", "x" and "c/y" in an empty cache with one node to spare. */
  lemma DotDotCanDeadlock() returns (s: State)
    ensures Reached(["c", ".."], Init(2, 4), s) && |s.pcs| == 4 && s.wanted == [["c", ".."], ["c"], ["x"], ["c", "y"]]
    ensures forall t :: 0 <= t < 4 ==> Blocked(s, t)
  {
    var p := ["c", ".."];
    assert p[..1] == ["c"] && p[..1][..0] == [] && Names(p[..1]) == ["c"];
    var rs := ReachedStates(p, 2, 4);
    s := FourLookups(p, rs, 1, "x", "y");
    assert ["c"][..0] + ["x"] == ["x"] && ["c"] + ["y"] == ["c", "y"];
  }

  lemma DotDotGetsStuck(p: seq<string>) returns (pool: nat, threads: nat, s: State)
    requires ".." in p
    ensures pool > 0 && Reached(p, Init(pool, threads), s) && Stuck(s)
  {
    var k := FirstTurn(p);
    var names := Names(p[..k]);
    pool, threads := k + 1, if names == [] then 1 else 4;
    var rs := ReachedStates(p, pool, threads);
    if names == [] {
      s := ClimbsAndWaits(p, rs, k);
    } else {
      var x := names[|names| - 1] + "x";
      assert x[|x| - 1] == 'x';
      s := FourLookups(p, rs, k, x, "y");
      assert Blocked(s, 0);
    }
  }

  lemma MoverIsUnderWay(s: State, e: Event)
    requires Enabled(s, e) && !e.a.Begin?
    ensures !s.pcs[e.t].Idle?
  {
  }

  lemma PlainNeverStuck(p: seq<string>, pool: nat, threads: nat, es: seq<Event>)
    requires pool > 0 && ".." !in p && IsRun(Init(pool, threads), es) && Gives(es, p)
    ensures !Stuck(Exec(Init(pool, threads), es))
  {
    var s := Exec(Init(pool, threads), es);
    assert PlainPaths(es);
    if Stuck(s) {
      var a :| 0 <= a < |s.pcs| && !s.pcs[a].Idle?;
      PlainLookupsAreNeverStuck(pool, threads, es, a);
      var e :| Enabled(s, e) && !e.a.Begin? && !Blocked(s, e.t);
      MoverIsUnderWay(s, e);
    }
  }

  /**
    Lookups of p, any number of them, beside any lookups without "..": no run of the code ever gets
    stuck if and only if p has no "..".  The same holds of the runs in which readers may also overtake
    announced writers.
   */
  lemma NeverStuckIffNoDotDot(p: seq<string>)
    ensures (forall pool: nat, threads: nat, es ::
               pool > 0 && CodeRun(Init(pool, threads), es) && Gives(es, p) ==> !Stuck(Exec(Init(pool, threads), es)))
            <==> ".." !in p
    ensures (forall pool: nat, threads: nat, es ::
               pool > 0 && IsRun(Init(pool, threads), es) && Gives(es, p) ==> !Stuck(Exec(Init(pool, threads), es)))
            <==> ".." !in p
  {
    if ".." in p {
      var pool, threads, s := DotDotGetsStuck(p);
      var es :| CodeRun(Init(pool, threads), es) && Gives(es, p) && Exec(Init(pool, threads), es) == s;
    } else {
      forall pool: nat, threads: nat, es | pool > 0 && IsRun(Init(pool, threads), es) && Gives(es, p)
        ensures !Stuck(Exec(Init(pool, threads), es))
      {
        PlainNeverStuck(p, pool, threads, es);
      }
    }
  }
}
