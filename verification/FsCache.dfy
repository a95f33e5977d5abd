/**
  The shared cache tree of src/vfs/fscache.c under any number of concurrent lookups.

  A thread's `Pc` says where it stands inside fscache_request_node; every `Action` is one atomic
  operation.  Each node carries the `state` word of its lock: readers enter while it is not negative
  and writers while it is zero, as in module RwLock.  Waiting writers are not counted here, so a
  reader may enter at least whenever RwLock lets it in; for safety that only adds interleavings.
  The upgrade gives the read lock up before it takes the write lock, and linking a child is four
  separate stores.  A lookup that meets ".." on a node without a parent gives its read lock back
  twice, and nothing here excludes that.

  `kids`, `home`, `depth` and `wanted` are auxiliary: they record the intended tree and the path each
  lookup was given, and are read by no step.
 */
module FsCache {
  import opened Common

  type NodeId = nat
  datatype Ptr = Null | To(n: NodeId)

  const ROOT: NodeId := 0
  const FREE := 0
  const DT_UNKNOWN := 0x80

  datatype Node = Node(dtype: nat, name: string, parent: Ptr, first: Ptr, prev: Ptr, next: Ptr)

  datatype Pc =
    | Idle
    | EnterRoot(path: seq<string>)
    | Walk(cur: NodeId, path: seq<string>)                   // loop head, cur read-locked
    | UpWait(cur: NodeId, par: NodeId, path: seq<string>)    // "..": waits for the parent
    | UpRelease(cur: NodeId, par: NodeId, path: seq<string>)
    | Scan(cur: NodeId, path: seq<string>, pos: Ptr, at: nat, wr: bool)
    | DownWait(cur: NodeId, path: seq<string>, child: NodeId, wr: bool)
    | DownRelease(cur: NodeId, path: seq<string>, child: NodeId, wr: bool)
    | Upgrading(cur: NodeId, path: seq<string>)              // holds no lock at all
    | Alloc(cur: NodeId, path: seq<string>)
    | Wipe(cur: NodeId, path: seq<string>, child: NodeId)    // claimed, not yet cleared
    | Load(cur: NodeId, path: seq<string>, child: NodeId)
    | Link1(cur: NodeId, path: seq<string>, child: NodeId)   // about to set child.next
    | Link2(cur: NodeId, path: seq<string>, child: NodeId, head: NodeId) // ... head.prev
    | Link3(cur: NodeId, path: seq<string>, child: NodeId)   // ... cur.first
    | Link4(cur: NodeId, path: seq<string>, child: NodeId)   // ... child.parent
    | Downgrade(cur: NodeId)
    | Done(cur: NodeId)
    | Climbed(cur: NodeId)                                   // gave cur back, will do so again

  /** The nodes in memory, and the intended tree: each list, each node's directory and depth. */
  datatype Tree = Tree(nodes: seq<Node>, kids: seq<seq<NodeId>>, home: seq<Ptr>, depth: seq<nat>)
  datatype State = State(tree: Tree, pcs: seq<Pc>, words: seq<int>, wanted: seq<seq<string>>)

  datatype Action =
    | Begin(given: seq<string>) | LockRoot | Stop | Dot | Up | UpLock | UpUnlock | NoParent | ReleaseAgain
    | StartScan | ScanNext | ScanHit | ScanMiss | UpgradeLock
    | AllocFail | Claim(got: NodeId) | Clear | LoadOk(ty: nat) | LoadFail
    | StoreNext | StorePrev | StoreFirst | StoreParent
    | DownLock | DownUnlock | DoDowngrade | Release

  datatype Event = Event(t: nat, a: Action)

  // ---- locks ----

  predicate HoldsRead(pc: Pc, n: NodeId) {
    match pc
    case Walk(cur, _) => n == cur
    case UpWait(cur, _, _) => n == cur
    case UpRelease(cur, par, _) => n == cur || n == par
    case Scan(cur, _, _, _, wr) => n == cur && !wr
    case DownWait(cur, _, _, wr) => n == cur && !wr
    case DownRelease(cur, _, child, wr) => n == child || (n == cur && !wr)
    case Load(_, _, child) => n == child
    case Link1(_, _, child) => n == child
    case Link2(_, _, child, _) => n == child
    case Link3(_, _, child) => n == child
    case Link4(_, _, child) => n == child
    case Done(cur) => n == cur
    case _ => false
  }

  predicate Modifying(pc: Pc) {
    match pc
    case Scan(_, _, _, _, wr) => wr
    case DownWait(_, _, _, wr) => wr
    case DownRelease(_, _, _, wr) => wr
    case _ => Inserting(pc) || pc.Downgrade?
  }

  predicate Inserting(pc: Pc) {
    pc.Alloc? || pc.Wipe? || pc.Load? || pc.Link1? || pc.Link2? || pc.Link3? || pc.Link4?
  }

  predicate HoldsWrite(pc: Pc, n: NodeId) {
    Modifying(pc) && n == pc.cur
  }

  predicate NoWriter(pcs: seq<Pc>, n: NodeId) {
    forall u :: 0 <= u < |pcs| ==> !HoldsWrite(pcs[u], n)
  }

  // ---- steps ----

  predicate Valid(tr: Tree, n: NodeId) { n < |tr.nodes| }

  /** cur is a directory and the next token is there to be looked up. */
  predicate AtToken(tr: Tree, pc: Pc) {
    pc.Walk? && Valid(tr, pc.cur) && tr.nodes[pc.cur].dtype == DT_DIR && pc.path != []
  }

  predicate AtChild(tr: Tree, pc: Pc) {
    pc.Scan? && pc.path != [] && pc.pos.To? && Valid(tr, pc.pos.n)
  }

  /** rw_lock_read_lock gets in, as far as `state` is concerned. */
  predicate Readable(s: State, n: NodeId) { n < |s.words| && s.words[n] >= 0 }

  predicate Enabled(s: State, e: Event) {
    && e.t < |s.pcs| == |s.wanted|
    && |s.tree.nodes| == |s.tree.kids| == |s.tree.home| == |s.tree.depth| == |s.words|
    && var pc, tr := s.pcs[e.t], s.tree;
       match e.a
       case Begin(given) => pc.Idle?
       case LockRoot => pc.EnterRoot? && Readable(s, ROOT)
       case Stop => pc.Walk?
       case Dot => AtToken(tr, pc) && pc.path[0] == "."
       case Up => AtToken(tr, pc) && pc.path[0] == ".." && tr.nodes[pc.cur].parent.To?
       case UpLock => pc.UpWait? && Readable(s, pc.par)
       case UpUnlock => pc.UpRelease? && Valid(tr, pc.cur)
       case NoParent => AtToken(tr, pc) && pc.path[0] == ".." && tr.nodes[pc.cur].parent.Null?
       case ReleaseAgain => pc.Climbed? && Valid(tr, pc.cur)
       case StartScan => AtToken(tr, pc) && pc.path[0] != "." && pc.path[0] != ".."
       case ScanNext => AtChild(tr, pc) && tr.nodes[pc.pos.n].name != pc.path[0]
       case ScanHit => AtChild(tr, pc) && tr.nodes[pc.pos.n].name == pc.path[0]
       case ScanMiss => pc.Scan? && pc.pos.Null? && Valid(tr, pc.cur)
       case UpgradeLock => pc.Upgrading? && Valid(tr, pc.cur) && s.words[pc.cur] == 0
       case AllocFail => pc.Alloc?
       case Claim(got) => pc.Alloc? && Valid(tr, got) && tr.nodes[got].dtype == FREE
       case Clear => pc.Wipe? && Valid(tr, pc.child)
       case LoadOk(ty) => pc.Load? && Valid(tr, pc.child) && pc.path != [] && ty != FREE
       case LoadFail => pc.Load? && Valid(tr, pc.child)
       case StoreNext => pc.Link1? && Valid(tr, pc.cur) && Valid(tr, pc.child)
       case StorePrev => pc.Link2? && Valid(tr, pc.head)
       case StoreFirst => pc.Link3? && Valid(tr, pc.cur) && Valid(tr, pc.child)
       case StoreParent => pc.Link4? && Valid(tr, pc.child)
       case DownLock => pc.DownWait? && Readable(s, pc.child)
       case DownUnlock => pc.DownRelease? && pc.path != [] && Valid(tr, pc.cur)
       case DoDowngrade => pc.Downgrade? && Valid(tr, pc.cur)
       case Release => pc.Done? && Valid(tr, pc.cur)
  }

  /** Where the acting thread goes. */
  function NextPc(s: State, e: Event): Pc
    requires Enabled(s, e)
  {
    var pc, tr := s.pcs[e.t], s.tree;
    match e.a
    case Begin(given) => EnterRoot(given)
    case LockRoot => Walk(ROOT, pc.path)
    case Stop => Done(pc.cur)
    case Dot => Walk(pc.cur, pc.path[1..])
    case Up => UpWait(pc.cur, tr.nodes[pc.cur].parent.n, pc.path[1..])
    case UpLock => UpRelease(pc.cur, pc.par, pc.path)
    case UpUnlock => Walk(pc.par, pc.path)
    case NoParent => Climbed(pc.cur)
    case ReleaseAgain => Idle
    case StartScan => Scan(pc.cur, pc.path, tr.nodes[pc.cur].first, 0, false)
    case ScanNext => Scan(pc.cur, pc.path, tr.nodes[pc.pos.n].next, pc.at + 1, pc.wr)
    case ScanHit => DownWait(pc.cur, pc.path, pc.pos.n, pc.wr)
    case ScanMiss => if pc.wr then Alloc(pc.cur, pc.path) else Upgrading(pc.cur, pc.path)
    case UpgradeLock => Scan(pc.cur, pc.path, tr.nodes[pc.cur].first, 0, true)
    case AllocFail => Downgrade(pc.cur)
    case Claim(got) => Wipe(pc.cur, pc.path, got)
    case Clear => Load(pc.cur, pc.path, pc.child)
    case LoadOk(_) => Link1(pc.cur, pc.path, pc.child)
    case LoadFail => Downgrade(pc.cur)
    case StoreNext =>
      if tr.nodes[pc.cur].first.To? then Link2(pc.cur, pc.path, pc.child, tr.nodes[pc.cur].first.n)
      else Link3(pc.cur, pc.path, pc.child)
    case StorePrev => Link3(pc.cur, pc.path, pc.child)
    case StoreFirst => Link4(pc.cur, pc.path, pc.child)
    case StoreParent => DownRelease(pc.cur, pc.path, pc.child, true)
    case DownLock => DownRelease(pc.cur, pc.path, pc.child, pc.wr)
    case DownUnlock => Walk(pc.child, pc.path[1..])
    case DoDowngrade => Done(pc.cur)
    case Release => Idle
  }

  function Put(tr: Tree, n: NodeId, node: Node): Tree
    requires Valid(tr, n)
  {
    tr.(nodes := tr.nodes[n := node])
  }

  /** Store child into cur.first: from here on the child is listed. */
  function Publish(tr: Tree, cur: NodeId, child: NodeId): Tree
    requires cur < |tr.nodes| == |tr.kids| == |tr.home| == |tr.depth| && child < |tr.nodes|
  {
    Tree(tr.nodes[cur := tr.nodes[cur].(first := To(child))], tr.kids[cur := [child] + tr.kids[cur]],
         tr.home[child := To(cur)], tr.depth[child := tr.depth[cur] + 1])
  }

  /** What the acting thread writes; most actions write nothing. */
  function NextTree(s: State, e: Event): Tree
    requires Enabled(s, e)
  {
    var pc, tr := s.pcs[e.t], s.tree;
    match e.a
    case Claim(got) => Put(tr, got, tr.nodes[got].(dtype := DT_UNKNOWN))
    case Clear => Put(tr, pc.child, Node(tr.nodes[pc.child].dtype, "", Null, Null, Null, Null))
    case LoadOk(ty) => Put(tr, pc.child, tr.nodes[pc.child].(dtype := ty, name := pc.path[0]))
    case LoadFail => Put(tr, pc.child, tr.nodes[pc.child].(dtype := FREE))
    case StoreNext =>
      if tr.nodes[pc.cur].first.To? then Put(tr, pc.child, tr.nodes[pc.child].(next := tr.nodes[pc.cur].first)) else tr
    case StorePrev => Put(tr, pc.head, tr.nodes[pc.head].(prev := To(pc.child)))
    case StoreFirst => Publish(tr, pc.cur, pc.child)
    case StoreParent => Put(tr, pc.child, tr.nodes[pc.child].(parent := To(pc.cur)))
    case _ => tr
  }

  /** The lock words: read locks and unlocks add and subtract, the others store. */
  function NextWords(s: State, e: Event): seq<int>
    requires Enabled(s, e)
  {
    var pc, w := s.pcs[e.t], s.words;
    match e.a
    case LockRoot => w[ROOT := w[ROOT] + 1]
    case UpLock => w[pc.par := w[pc.par] + 1]
    case UpUnlock => w[pc.cur := w[pc.cur] - 1]
    case NoParent => w[pc.cur := w[pc.cur] - 1]
    case ReleaseAgain => w[pc.cur := w[pc.cur] - 1]
    case ScanMiss => if pc.wr then w else w[pc.cur := w[pc.cur] - 1]
    case UpgradeLock => w[pc.cur := -1]
    case Clear => w[pc.child := 1]
    case DownLock => w[pc.child := w[pc.child] + 1]
    case DownUnlock => w[pc.cur := if pc.wr then 0 else w[pc.cur] - 1]
    case DoDowngrade => w[pc.cur := 1]
    case Release => w[pc.cur := w[pc.cur] - 1]
    case _ => w
  }

  function Apply(s: State, e: Event): State
    requires Enabled(s, e)
  {
    State(NextTree(s, e), s.pcs[e.t := NextPc(s, e)], NextWords(s, e),
          if e.a.Begin? then s.wanted[e.t := e.a.given] else s.wanted)
  }

  /** A freshly initialised cache: the root is loaded, every other node of the pool is free. */
  function Init(pool: nat, threads: nat): State
    requires pool > 0
  {
    State(Tree(seq(pool, (i: int) => Node(if i == ROOT then DT_DIR else FREE, "", Null, Null, Null, Null)),
               seq(pool, _ => []), seq(pool, _ => Null), seq(pool, _ => 0)),
          seq(threads, _ => Idle), seq(pool, _ => 0), seq(threads, _ => []))
  }

  predicate IsRun(s: State, es: seq<Event>)
    decreases es
  {
    es == [] || (Enabled(s, es[0]) && IsRun(Apply(s, es[0]), es[1..]))
  }

  function Exec(s: State, es: seq<Event>): State
    requires IsRun(s, es)
    decreases es
  {
    if es == [] then s else Exec(Apply(s, es[0]), es[1..])
  }

  lemma {:induction false} RunSnoc(s: State, es: seq<Event>, e: Event)
    requires IsRun(s, es) && Enabled(Exec(s, es), e)
    ensures IsRun(s, es + [e]) && Exec(s, es + [e]) == Apply(Exec(s, es), e)
    decreases es
  {
    if es == [] {
      assert [e][1..] == [] && [] + [e] == [e];
    } else {
      assert (es + [e])[1..] == es[1..] + [e];
      RunSnoc(Apply(s, es[0]), es[1..], e);
    }
  }

  // ---- the tree ----

  function Nth(l: seq<NodeId>, i: nat): Ptr {
    if i < |l| then To(l[i]) else Null
  }

  ghost predicate Sizes(tr: Tree) {
    && |tr.nodes| == |tr.kids| == |tr.home| == |tr.depth| && |tr.nodes| > 0
    && tr.home[ROOT] == Null && tr.nodes[ROOT].parent == Null && tr.depth[ROOT] == 0
    && tr.nodes[ROOT].dtype != FREE
  }

  /** A node other threads may know: the root, or one that has been linked. */
  predicate Live(tr: Tree, n: NodeId) {
    n < |tr.home| && (n == ROOT || tr.home[n].To?)
  }

  /** A node in use that is part of the tree. */
  predicate InTree(tr: Tree, n: NodeId) {
    Live(tr, n) && Valid(tr, n) && tr.nodes[n].dtype != FREE
  }

  /** The forward pointers of directory p spell out kids[p]. */
  ghost predicate ForwardChain(tr: Tree, p: NodeId)
    requires Sizes(tr) && p < |tr.nodes|
  {
    && tr.nodes[p].first == Nth(tr.kids[p], 0)
    && (forall i {:trigger tr.nodes[tr.kids[p][i]]} :: 0 <= i < |tr.kids[p]| ==>
          Valid(tr, tr.kids[p][i]) && tr.nodes[tr.kids[p][i]].next == Nth(tr.kids[p], i + 1))
  }

  /** Children belong to p, occur once, have different names and are in use. */
  ghost predicate Siblings(tr: Tree, p: NodeId)
    requires Sizes(tr) && p < |tr.nodes|
  {
    && (forall i :: 0 <= i < |tr.kids[p]| ==>
          && InTree(tr, tr.kids[p][i]) && tr.kids[p][i] != ROOT && tr.home[tr.kids[p][i]] == To(p)
          && tr.depth[tr.kids[p][i]] == tr.depth[p] + 1)
    && (forall i, j :: 0 <= i < j < |tr.kids[p]| ==>
          tr.kids[p][i] != tr.kids[p][j] && tr.nodes[tr.kids[p][i]].name != tr.nodes[tr.kids[p][j]].name)
    && (tr.kids[p] != [] ==> InTree(tr, p))
  }

  /** Some thread has set head.prev for p's list but not yet p's first pointer. */
  predicate PrevAhead(pcs: seq<Pc>, p: NodeId) {
    exists t :: 0 <= t < |pcs| && pcs[t].Link3? && pcs[t].cur == p
  }

  /** Some thread has published n but not yet set its parent pointer. */
  predicate ParentPending(pcs: seq<Pc>, n: NodeId) {
    exists t :: 0 <= t < |pcs| && pcs[t].Link4? && pcs[t].child == n
  }

  /** Backward and parent pointers agree, except where a linking thread is half way. */
  ghost predicate BackChain(tr: Tree, pcs: seq<Pc>, p: NodeId)
    requires Sizes(tr) && p < |tr.nodes| && Siblings(tr, p)
  {
    && (forall i {:trigger tr.nodes[tr.kids[p][i]]} :: 0 < i < |tr.kids[p]| ==>
          tr.nodes[tr.kids[p][i]].prev == To(tr.kids[p][i - 1]))
    && (tr.kids[p] != [] ==> tr.nodes[tr.kids[p][0]].prev == Null || PrevAhead(pcs, p))
    && (forall i :: 0 <= i < |tr.kids[p]| ==>
          tr.nodes[tr.kids[p][i]].parent == To(p) || ParentPending(pcs, tr.kids[p][i]))
  }

  /** A node with a home is in its home's list. */
  ghost predicate Listed(tr: Tree, n: NodeId)
    requires Sizes(tr) && n < |tr.nodes|
  {
    tr.home[n].To? ==> Valid(tr, tr.home[n].n) && tr.home[n].n != n && n in tr.kids[tr.home[n].n]
  }

  ghost predicate Directory(tr: Tree, pcs: seq<Pc>, p: NodeId)
    requires Sizes(tr) && p < |tr.nodes|
  {
    ForwardChain(tr, p) && Siblings(tr, p) && BackChain(tr, pcs, p) && Listed(tr, p)
  }

  ghost predicate TreeInv(tr: Tree, pcs: seq<Pc>) {
    Sizes(tr) && forall p {:trigger Directory(tr, pcs, p)} :: 0 <= p < |tr.nodes| ==> Directory(tr, pcs, p)
  }

  // ---- what each thread knows ----

  /** A node that a thread has claimed and is still bringing into the tree. */
  predicate Bringing(pc: Pc) {
    pc.Wipe? || pc.Load? || pc.Link1? || pc.Link2? || pc.Link3? || pc.Link4?
  }

  /** ... and has not listed yet. */
  predicate Unlisted(pc: Pc) { Bringing(pc) && !pc.Link4? }

  predicate Standing(pc: Pc) { !pc.Idle? && !pc.EnterRoot? }

  /** Nodes other than its own claimed child that a thread may touch. */
  predicate Knows(pc: Pc, n: NodeId) {
    || (Standing(pc) && n == pc.cur)
    || ((pc.UpWait? || pc.UpRelease?) && n == pc.par)
    || (pc.Scan? && pc.pos == To(n))
    || ((pc.DownWait? || pc.DownRelease?) && n == pc.child)
    || (pc.Link2? && n == pc.head)
  }

  predicate NoChildNamed(tr: Tree, p: NodeId, name: string)
    requires p < |tr.kids|
  {
    forall i :: 0 <= i < |tr.kids[p]| ==> Valid(tr, tr.kids[p][i]) && tr.nodes[tr.kids[p][i]].name != name
  }

  predicate Named(path: seq<string>) {
    path != [] && path[0] != "." && path[0] != ".."
  }

  predicate Detached(tr: Tree, c: NodeId) {
    c < |tr.nodes| && c < |tr.home| && c < |tr.kids| && c != ROOT && tr.home[c] == Null && tr.kids[c] == []
  }

  /** A thread that is to insert path[0] under cur: no such child yet, and its own node is unlisted. */
  ghost predicate InsertInv(tr: Tree, pc: Pc)
    requires Sizes(tr) && Inserting(pc) && pc.cur < |tr.nodes|
  {
    && Named(pc.path)
    && (!pc.Link4? ==> NoChildNamed(tr, pc.cur, pc.path[0]))
    && (!pc.Alloc? ==> Valid(tr, pc.child) && tr.nodes[pc.child].dtype != FREE && pc.child != ROOT)
    && (Unlisted(pc) ==> tr.kids[pc.child] == [])
    && (Bringing(pc) ==> tr.home[pc.child] == if pc.Link4? then To(pc.cur) else Null)
    && (Bringing(pc) && !pc.Wipe? ==> tr.nodes[pc.child].parent == Null)
    && (pc.Load? || pc.Link1? ==> tr.nodes[pc.child].next == Null)
    && (pc.Load? || pc.Link1? || pc.Link2? || pc.Link3? ==> tr.nodes[pc.child].prev == Null)
    && (pc.Link1? || pc.Link2? || pc.Link3? ==> tr.nodes[pc.child].name == pc.path[0])
    && (pc.Link2? ==> InTree(tr, pc.head) && Nth(tr.kids[pc.cur], 0) == To(pc.head))
    && (pc.Link2? || pc.Link3? ==> tr.nodes[pc.child].next == Nth(tr.kids[pc.cur], 0))
    && (pc.Link3? && tr.kids[pc.cur] != [] ==>
          Valid(tr, tr.kids[pc.cur][0]) && tr.nodes[tr.kids[pc.cur][0]].prev == To(pc.child))
  }

  /** A thread that walks or scans. */
  ghost predicate WalkInv(tr: Tree, pc: Pc)
    requires Sizes(tr) && (Standing(pc) ==> pc.cur < |tr.nodes|)
  {
    match pc
    case UpWait(cur, par, path) => InTree(tr, par) && tr.home[cur] == To(par)
    case UpRelease(cur, par, path) => InTree(tr, par) && tr.home[cur] == To(par)
    case Scan(cur, path, pos, at, wr) =>
      && Named(path) && (pos.To? ==> InTree(tr, pos.n) && tr.home[pos.n] == To(cur))
      && (wr ==>
            && at <= |tr.kids[cur]| && pos == Nth(tr.kids[cur], at)
            && forall i :: 0 <= i < at ==> Valid(tr, tr.kids[cur][i]) && tr.nodes[tr.kids[cur][i]].name != path[0])
    case DownWait(cur, path, child, wr) => Named(path) && InTree(tr, child) && tr.home[child] == To(cur)
    case DownRelease(cur, path, child, wr) => Named(path) && InTree(tr, child) && tr.home[child] == To(cur)
    case Upgrading(cur, path) => Named(path)
    case _ => true
  }

  ghost predicate ThreadInv(tr: Tree, pc: Pc)
    requires Sizes(tr)
  {
    && (Standing(pc) ==> InTree(tr, pc.cur))
    && WalkInv(tr, pc)
    && (Inserting(pc) ==> InsertInv(tr, pc))
  }

  ghost predicate ThreadsInv(tr: Tree, pcs: seq<Pc>)
    requires Sizes(tr)
  {
    forall t {:trigger ThreadInv(tr, pcs[t])} :: 0 <= t < |pcs| ==> ThreadInv(tr, pcs[t])
  }

  /** Writers exclude each other, and nobody else knows a node that is not listed yet. */
  ghost predicate Apart(pc: Pc, other: Pc) {
    && (Modifying(pc) ==> !HoldsWrite(other, pc.cur))
    && (Bringing(pc) && Bringing(other) ==> pc.child != other.child)
    && (Unlisted(pc) ==> !Knows(other, pc.child))
  }

  ghost predicate AllApart(pcs: seq<Pc>) {
    forall t, u {:trigger Apart(pcs[t], pcs[u])} ::
      0 <= t < |pcs| && 0 <= u < |pcs| && t != u ==> Apart(pcs[t], pcs[u])
  }

  /** The word of a lock that is held for writing is negative, however often it is released. */
  ghost predicate WritersInv(words: seq<int>, pcs: seq<Pc>) {
    forall t :: 0 <= t < |pcs| && Modifying(pcs[t]) ==> pcs[t].cur < |words| && words[pcs[t].cur] < 0
  }

  ghost predicate Inv(s: State) {
    && TreeInv(s.tree, s.pcs) && ThreadsInv(s.tree, s.pcs) && AllApart(s.pcs)
    && |s.words| == |s.tree.nodes| && |s.wanted| == |s.pcs| && WritersInv(s.words, s.pcs)
  }

  // ---- locks and knowledge stay apart ----

  /** A new Pc for thread t keeps clear of every other thread. */
  ghost predicate KeepsApart(pcs: seq<Pc>, t: nat, pc: Pc) {
    forall u {:trigger Apart(pcs[u], pc)} :: 0 <= u < |pcs| && u != t ==> Apart(pc, pcs[u]) && Apart(pcs[u], pc)
  }

  lemma GotoApart(pcs: seq<Pc>, t: nat, pc: Pc)
    requires AllApart(pcs) && t < |pcs| && KeepsApart(pcs, t, pc)
    ensures AllApart(pcs[t := pc])
  {
    var pcs' := pcs[t := pc];
    forall u, v | 0 <= u < |pcs| && 0 <= v < |pcs| && u != v
      ensures Apart(pcs'[u], pcs'[v])
    {
      if u == t {
        assert Apart(pcs[v], pc);
      } else if v == t {
        assert Apart(pcs[u], pc);
      } else {
        assert Apart(pcs[u], pcs[v]);
      }
    }
  }

  /** From pc to pc' a thread gains no lock and learns of no node. */
  ghost predicate Shrinks(pc: Pc, pc': Pc) {
    && (Modifying(pc') ==> Modifying(pc) && pc'.cur == pc.cur)
    && (forall n :: Knows(pc', n) ==> Knows(pc, n))
    && (Bringing(pc') ==> Bringing(pc) && pc.child == pc'.child && (Unlisted(pc') ==> Unlisted(pc)))
  }

  lemma ShrinkApart(pcs: seq<Pc>, t: nat, pc': Pc)
    requires AllApart(pcs) && t < |pcs| && Shrinks(pcs[t], pc')
    ensures KeepsApart(pcs, t, pc')
  {
    forall u | 0 <= u < |pcs| && u != t
      ensures Apart(pc', pcs[u]) && Apart(pcs[u], pc')
    {
      assert Apart(pcs[t], pcs[u]) && Apart(pcs[u], pcs[t]);
    }
  }

  predicate Shrinking(a: Action) {
    a.Begin? || a.Stop? || a.Dot? || a.UpUnlock? || a.ScanHit? || a.ScanMiss? || a.AllocFail? || a.LoadFail?
    || a.DownUnlock? || a.DoDowngrade? || a.Release? || a.NoParent? || a.ReleaseAgain? || a.StorePrev? ||
    a.StoreFirst? || a.LoadOk?
  }

  /** No thread but t knows c. */
  predicate KnownOnlyTo(pcs: seq<Pc>, t: nat, c: NodeId) {
    forall u :: 0 <= u < |pcs| && u != t ==> !Knows(pcs[u], c) && (Bringing(pcs[u]) ==> pcs[u].child != c)
  }

  /** What thread t is about to know is nobody's unlisted node. */
  ghost predicate LearnsListed(pcs: seq<Pc>, t: nat, pc': Pc) {
    forall u :: 0 <= u < |pcs| && u != t && Unlisted(pcs[u]) ==> !Knows(pc', pcs[u].child)
  }

  lemma GainApart(s: State, e: Event)
    requires Enabled(s, e) && !Shrinking(e.a) && AllApart(s.pcs) && WritersInv(s.words, s.pcs)
    requires LearnsListed(s.pcs, e.t, NextPc(s, e))
    requires e.a.Claim? ==> KnownOnlyTo(s.pcs, e.t, e.a.got)
    ensures KeepsApart(s.pcs, e.t, NextPc(s, e))
  {
    var pc' := NextPc(s, e);
    forall u | 0 <= u < |s.pcs| && u != e.t
      ensures Apart(pc', s.pcs[u]) && Apart(s.pcs[u], pc')
    {
      assert Apart(s.pcs[e.t], s.pcs[u]) && Apart(s.pcs[u], s.pcs[e.t]);
    }
  }

  lemma ShrinkingShrinks(s: State, e: Event)
    requires Enabled(s, e) && Shrinking(e.a)
    ensures Shrinks(s.pcs[e.t], NextPc(s, e))
  {
  }

  /** The root and the nodes of any list are nobody's unlisted nodes. */
  lemma LiveIsListed(tr: Tree, pc: Pc, n: NodeId)
    requires Sizes(tr) && ThreadInv(tr, pc) && Unlisted(pc) && Live(tr, n)
    ensures pc.child != n
  {
  }

  lemma KnownIsLive(tr: Tree, pc: Pc, n: NodeId)
    requires Sizes(tr) && ThreadInv(tr, pc) && Knows(pc, n)
    ensures Live(tr, n)
  {
  }

  // ---- what the acting thread knows afterwards ----

  lemma MoveThread(s: State, e: Event)
    requires Sizes(s.tree) && Enabled(s, e) && ThreadInv(s.tree, s.pcs[e.t])
    requires e.a.Begin? || e.a.LockRoot? || e.a.Stop? || e.a.Dot? || e.a.UpLock? || e.a.UpUnlock? || e.a.NoParent? ||
             e.a.ReleaseAgain?
          || e.a.AllocFail? || e.a.DownLock? || e.a.DoDowngrade? || e.a.Release? || e.a.ScanMiss?
    ensures ThreadInv(s.tree, NextPc(s, e))
  {
  }

  /** Position `at` of cur's list; for a writer, when no earlier child is called path[0]. */
  lemma ScanPosition(tr: Tree, cur: NodeId, path: seq<string>, i: nat, at: nat, wr: bool)
    requires Sizes(tr) && InTree(tr, cur) && Named(path) && i <= |tr.kids[cur]| && Siblings(tr, cur)
    requires wr ==> i == at && forall j :: 0 <= j < at ==> tr.nodes[tr.kids[cur][j]].name != path[0]
    ensures ThreadInv(tr, Scan(cur, path, Nth(tr.kids[cur], i), at, wr))
  {
  }

  /** Position i is behind the child at pc.pos. */
  predicate IsAt(tr: Tree, pc: Pc, i: nat)
    requires pc.Scan? && pc.pos.To?
  {
    pc.cur < |tr.kids| && i < |tr.kids[pc.cur]| && tr.kids[pc.cur][i] == pc.pos.n && (pc.wr ==> i == pc.at)
  }

  /** From one child of cur to the next; a writer knows at which position it is. */
  lemma ScanOn(tr: Tree, pc: Pc, i: nat)
    requires Sizes(tr) && ThreadInv(tr, pc) && AtChild(tr, pc) && tr.nodes[pc.pos.n].name != pc.path[0] &&
             IsAt(tr, pc, i)
    requires Siblings(tr, pc.cur) && tr.nodes[pc.pos.n].next == Nth(tr.kids[pc.cur], i + 1)
    ensures ThreadInv(tr, Scan(pc.cur, pc.path, tr.nodes[pc.pos.n].next, pc.at + 1, pc.wr))
  {
    ScanPosition(tr, pc.cur, pc.path, i + 1, pc.at + 1, pc.wr);
  }

  lemma ScanIsAt(tr: Tree, pc: Pc) returns (i: nat)
    requires Sizes(tr) && ThreadInv(tr, pc) && AtChild(tr, pc) && Listed(tr, pc.pos.n)
    ensures IsAt(tr, pc, i)
  {
    if pc.wr {
      i := pc.at;
    } else {
      i :| i < |tr.kids[pc.cur]| && tr.kids[pc.cur][i] == pc.pos.n;
    }
  }

  lemma ScanGoesOn(tr: Tree, pc: Pc)
    requires Sizes(tr) && ThreadInv(tr, pc) && AtChild(tr, pc) && tr.nodes[pc.pos.n].name != pc.path[0]
    requires ForwardChain(tr, pc.cur) && Siblings(tr, pc.cur) && Listed(tr, pc.pos.n)
    ensures ThreadInv(tr, Scan(pc.cur, pc.path, tr.nodes[pc.pos.n].next, pc.at + 1, pc.wr))
  {
    var i := ScanIsAt(tr, pc);
    assert tr.nodes[tr.kids[pc.cur][i]].next == Nth(tr.kids[pc.cur], i + 1);
    ScanOn(tr, pc, i);
  }

  lemma ScanStarts(tr: Tree, cur: NodeId, path: seq<string>, wr: bool)
    requires Sizes(tr) && InTree(tr, cur) && Named(path) && ForwardChain(tr, cur) && Siblings(tr, cur)
    ensures ThreadInv(tr, Scan(cur, path, tr.nodes[cur].first, 0, wr))
  {
    ScanPosition(tr, cur, path, 0, 0, wr);
  }

  lemma ScanThread(s: State, e: Event)
    requires Sizes(s.tree) && Enabled(s, e) && ThreadInv(s.tree, s.pcs[e.t])
    requires e.a.ScanNext? || e.a.StartScan? || e.a.UpgradeLock?
    requires ForwardChain(s.tree, s.pcs[e.t].cur) && Siblings(s.tree, s.pcs[e.t].cur)
    requires e.a.ScanNext? ==> Listed(s.tree, s.pcs[e.t].pos.n)
    ensures ThreadInv(s.tree, NextPc(s, e))
  {
    var pc := s.pcs[e.t];
    if e.a.ScanNext? {
      assert NextPc(s, e) == Scan(pc.cur, pc.path, s.tree.nodes[pc.pos.n].next, pc.at + 1, pc.wr);
      ScanGoesOn(s.tree, pc);
    } else {
      assert NextPc(s, e) == Scan(pc.cur, pc.path, s.tree.nodes[pc.cur].first, 0, e.a.UpgradeLock?);
      ScanStarts(s.tree, pc.cur, pc.path, e.a.UpgradeLock?);
    }
  }

  lemma HitThread(s: State, e: Event)
    requires Sizes(s.tree) && Enabled(s, e) && ThreadInv(s.tree, s.pcs[e.t]) && e.a.ScanHit?
    requires Siblings(s.tree, s.pcs[e.t].cur)
    ensures ThreadInv(s.tree, NextPc(s, e))
  {
  }

  lemma UpThread(s: State, e: Event)
    requires Sizes(s.tree) && Enabled(s, e) && ThreadInv(s.tree, s.pcs[e.t]) && e.a.Up?
    requires s.tree.nodes[s.pcs[e.t].cur].parent == s.tree.home[s.pcs[e.t].cur]
    requires Listed(s.tree, s.pcs[e.t].cur) && Siblings(s.tree, s.tree.home[s.pcs[e.t].cur].n)
    ensures ThreadInv(s.tree, NextPc(s, e))
  {
  }

  lemma DownThread(s: State, e: Event)
    requires Sizes(s.tree) && Enabled(s, e) && ThreadInv(s.tree, s.pcs[e.t]) && e.a.DownUnlock?
    requires Siblings(s.tree, s.pcs[e.t].cur) && Listed(s.tree, s.pcs[e.t].child)
    ensures ThreadInv(s.tree, NextPc(s, e))
  {
  }

  /** The node that the inserting thread writes to before it is listed. */
  predicate WritesOwnNode(a: Action) { a.Claim? || a.Clear? || a.LoadOk? || a.LoadFail? || a.StoreNext? }

  function OwnNode(pc: Pc, a: Action): NodeId
    requires WritesOwnNode(a) && (a.Claim? || Bringing(pc))
  {
    if a.Claim? then a.got else pc.child
  }

  /** Writing to an unlisted node hides no child of p and renames none. */
  lemma PutKeepsKids(tr: Tree, c: NodeId, node: Node, p: NodeId, name: string)
    requires Sizes(tr) && Detached(tr, c) && p < |tr.nodes| && Siblings(tr, p) && NoChildNamed(tr, p, name)
    ensures NoChildNamed(Put(tr, c, node), p, name)
    ensures forall i :: 0 <= i < |tr.kids[p]| ==> tr.kids[p][i] != c && InTree(tr, tr.kids[p][i])
  {
    forall i | 0 <= i < |tr.kids[p]|
      ensures tr.kids[p][i] != c && InTree(tr, tr.kids[p][i])
    {
      assert InTree(tr, tr.kids[p][i]);
    }
  }

  ghost predicate MayWriteOwn(s: State, e: Event) {
    && Sizes(s.tree) && Enabled(s, e) && WritesOwnNode(e.a)
    && Detached(s.tree, OwnNode(s.pcs[e.t], e.a)) && s.pcs[e.t].cur != OwnNode(s.pcs[e.t], e.a)
  }

  lemma LoadThread(s: State, e: Event)
    requires MayWriteOwn(s, e) && !e.a.StoreNext? && ThreadInv(s.tree, s.pcs[e.t])
    requires Siblings(s.tree, s.pcs[e.t].cur)
    ensures Sizes(NextTree(s, e)) && ThreadInv(NextTree(s, e), NextPc(s, e))
  {
    var pc, tr := s.pcs[e.t], s.tree;
    var c := OwnNode(pc, e.a);
    PutKeepsKids(tr, c, NextTree(s, e).nodes[c], pc.cur, pc.path[0]);
  }

  lemma NextThread(s: State, e: Event)
    requires MayWriteOwn(s, e) && e.a.StoreNext? && ThreadInv(s.tree, s.pcs[e.t])
    requires ForwardChain(s.tree, s.pcs[e.t].cur) && Siblings(s.tree, s.pcs[e.t].cur)
    ensures Sizes(NextTree(s, e)) && ThreadInv(NextTree(s, e), NextPc(s, e))
    ensures NextPc(s, e).Link2? ==> Live(s.tree, NextPc(s, e).head)
  {
    var pc, tr := s.pcs[e.t], s.tree;
    PutKeepsKids(tr, pc.child, NextTree(s, e).nodes[pc.child], pc.cur, pc.path[0]);
    assert tr.kids[pc.cur] != [] ==> tr.home[tr.kids[pc.cur][0]] == To(pc.cur);
  }

  lemma PrevThread(s: State, e: Event)
    requires Sizes(s.tree) && Enabled(s, e) && e.a.StorePrev? && ThreadInv(s.tree, s.pcs[e.t])
    requires Siblings(s.tree, s.pcs[e.t].cur)
    ensures Sizes(NextTree(s, e)) && ThreadInv(NextTree(s, e), NextPc(s, e))
  {
    var pc, tr := s.pcs[e.t], s.tree;
    assert tr.home[pc.head] == To(pc.cur);
    assert NoChildNamed(NextTree(s, e), pc.cur, pc.path[0]);
  }

  lemma FirstThread(s: State, e: Event)
    requires Sizes(s.tree) && Enabled(s, e) && e.a.StoreFirst? && ThreadInv(s.tree, s.pcs[e.t])
    ensures Sizes(NextTree(s, e)) && ThreadInv(NextTree(s, e), NextPc(s, e))
  {
  }

  lemma ParentThread(s: State, e: Event)
    requires Sizes(s.tree) && Enabled(s, e) && e.a.StoreParent? && ThreadInv(s.tree, s.pcs[e.t])
    ensures Sizes(NextTree(s, e)) && ThreadInv(NextTree(s, e), NextPc(s, e))
  {
  }

  // ---- what the other threads know stays true ----

  /** Nodes of the tree keep their place, their name and their use. */
  ghost predicate Evolves(tr: Tree, tr': Tree)
    requires Sizes(tr) && Sizes(tr')
  {
    && |tr.nodes| == |tr'.nodes|
    && forall n {:trigger Live(tr, n)} :: 0 <= n < |tr.nodes| && Live(tr, n) ==>
         && tr'.home[n] == tr.home[n] && tr'.depth[n] == tr.depth[n] && tr'.nodes[n].name == tr.nodes[n].name
         && (tr.nodes[n].dtype != FREE ==> tr'.nodes[n].dtype != FREE)
  }

  /** The list a writer holds and the node it brings in are as they were. */
  ghost predicate Undisturbed(tr: Tree, tr': Tree, pc: Pc)
    requires Sizes(tr) && Sizes(tr') && |tr.nodes| == |tr'.nodes| && ThreadInv(tr, pc)
  {
    && (Modifying(pc) ==> tr'.kids[pc.cur] == tr.kids[pc.cur])
    && (Unlisted(pc) ==>
          && tr'.home[pc.child] == tr.home[pc.child] && tr'.kids[pc.child] == tr.kids[pc.child]
          && tr'.nodes[pc.child] == tr.nodes[pc.child])
    && (pc.Link4? ==> tr'.nodes[pc.child].parent == tr.nodes[pc.child].parent)
    && (pc.Link3? && tr.kids[pc.cur] != [] ==>
          tr'.nodes[tr.kids[pc.cur][0]].prev == tr.nodes[tr.kids[pc.cur][0]].prev)
  }

  lemma FrameWalk(tr: Tree, tr': Tree, pc: Pc)
    requires Sizes(tr) && Sizes(tr') && Evolves(tr, tr') && ThreadInv(tr, pc) && Undisturbed(tr, tr', pc)
    requires Standing(pc) ==> Siblings(tr, pc.cur)
    ensures (Standing(pc) ==> InTree(tr', pc.cur)) && WalkInv(tr', pc)
  {
    if pc.Scan? && pc.wr {
      forall i | 0 <= i < pc.at
        ensures Valid(tr', tr.kids[pc.cur][i]) && tr'.nodes[tr.kids[pc.cur][i]].name != pc.path[0]
      {
        assert InTree(tr, tr.kids[pc.cur][i]);
      }
    }
  }

  lemma FrameInsert(tr: Tree, tr': Tree, pc: Pc)
    requires Sizes(tr) && Sizes(tr') && Evolves(tr, tr') && ThreadInv(tr, pc) && Undisturbed(tr, tr', pc)
    requires Inserting(pc) && Siblings(tr, pc.cur)
    ensures InsertInv(tr', pc)
  {
    assert Live(tr, pc.cur);
    if pc.Link4? {
      assert Live(tr, pc.child);
    } else {
      forall i | 0 <= i < |tr.kids[pc.cur]|
        ensures Valid(tr', tr.kids[pc.cur][i]) && tr'.nodes[tr.kids[pc.cur][i]].name != pc.path[0]
      {
        assert InTree(tr, tr.kids[pc.cur][i]);
      }
    }
  }

  lemma FrameThread(tr: Tree, tr': Tree, pc: Pc)
    requires Sizes(tr) && Sizes(tr') && Evolves(tr, tr') && ThreadInv(tr, pc) && Undisturbed(tr, tr', pc)
    requires Standing(pc) ==> Siblings(tr, pc.cur)
    ensures ThreadInv(tr', pc)
  {
    FrameWalk(tr, tr', pc);
    if Inserting(pc) {
      FrameInsert(tr, tr', pc);
    }
  }

  /** The node a step writes to before it is listed, if it is such a step, is unlisted. */
  ghost predicate OwnDetached(s: State, e: Event)
    requires Enabled(s, e)
  {
    && (WritesOwnNode(e.a) ==> Detached(s.tree, OwnNode(s.pcs[e.t], e.a)) &&
                               KnownOnlyTo(s.pcs, e.t, OwnNode(s.pcs[e.t], e.a)))
    && (e.a.StoreFirst? ==> Detached(s.tree, s.pcs[e.t].child))
  }

  lemma StepEvolves(s: State, e: Event)
    requires Sizes(s.tree) && Enabled(s, e) && OwnDetached(s, e)
    requires e.a.StoreParent? ==> s.pcs[e.t].child != ROOT
    ensures Sizes(NextTree(s, e)) && Evolves(s.tree, NextTree(s, e))
  {
  }

  /** A store into one node: nobody minds unless it is the node a thread brings, or a first child. */
  lemma PutUndisturbed(tr: Tree, c: NodeId, node: Node, pc: Pc)
    requires Sizes(tr) && Valid(tr, c) && ThreadInv(tr, pc) && Sizes(Put(tr, c, node))
    requires Bringing(pc) && pc.child == c ==> node.parent == tr.nodes[c].parent &&
                                               (Unlisted(pc) ==> node == tr.nodes[c])
    requires pc.Link3? && tr.kids[pc.cur] != [] && tr.kids[pc.cur][0] == c ==> node.prev == tr.nodes[c].prev
    ensures Undisturbed(tr, Put(tr, c, node), pc)
  {
  }

  lemma OwnStore(s: State, e: Event)
    requires Enabled(s, e) && WritesOwnNode(e.a)
    ensures var c := OwnNode(s.pcs[e.t], e.a);
            Valid(s.tree, c) && Valid(NextTree(s, e), c) &&
            NextTree(s, e) == Put(s.tree, c, NextTree(s, e).nodes[c])
  {
    var c, tr' := OwnNode(s.pcs[e.t], e.a), NextTree(s, e);
    assert tr'.nodes == s.tree.nodes[c := tr'.nodes[c]];
  }

  lemma OwnUndisturbed(s: State, e: Event, pc: Pc)
    requires Sizes(s.tree) && Enabled(s, e) && WritesOwnNode(e.a) && Detached(s.tree, OwnNode(s.pcs[e.t], e.a)) &&
             ThreadInv(s.tree, pc)
    requires Bringing(pc) ==> pc.child != OwnNode(s.pcs[e.t], e.a)
    requires (Standing(pc) ==> Siblings(s.tree, pc.cur)) && Sizes(NextTree(s, e))
    ensures Undisturbed(s.tree, NextTree(s, e), pc)
  {
    var c := OwnNode(s.pcs[e.t], e.a);
    OwnStore(s, e);
    FirstChildIsListed(s.tree, pc, c);
    PutUndisturbed(s.tree, c, NextTree(s, e).nodes[c], pc);
  }

  lemma FirstChildIsListed(tr: Tree, pc: Pc, c: NodeId)
    requires Sizes(tr) && ThreadInv(tr, pc) && Detached(tr, c) && (Standing(pc) ==> Siblings(tr, pc.cur))
    ensures pc.Link3? && tr.kids[pc.cur] != [] ==> tr.kids[pc.cur][0] != c
  {
    if pc.Link3? && tr.kids[pc.cur] != [] {
      assert tr.home[tr.kids[pc.cur][0]] == To(pc.cur);
    }
  }

  lemma HeadUndisturbed(tr: Tree, cur: NodeId, head: NodeId, child: NodeId, pc: Pc)
    requires Sizes(tr) && head < |tr.nodes| && tr.home[head] == To(cur) && ThreadInv(tr, pc)
    requires Modifying(pc) ==> pc.cur != cur
    requires Unlisted(pc) ==> pc.child != head
    requires Standing(pc) ==> Siblings(tr, pc.cur)
    ensures var tr' := Put(tr, head, tr.nodes[head].(prev := To(child)));
            Sizes(tr') && Undisturbed(tr, tr', pc)
  {
    if pc.Link3? && tr.kids[pc.cur] != [] {
      assert tr.home[tr.kids[pc.cur][0]] == To(pc.cur);
    }
  }

  lemma PublishUndisturbed(tr: Tree, cur: NodeId, child: NodeId, pc: Pc)
    requires Sizes(tr) && ThreadInv(tr, pc) && cur < |tr.nodes| && child < |tr.nodes| && Sizes(Publish(tr, cur, child))
    requires Modifying(pc) ==> pc.cur != cur
    requires Unlisted(pc) ==> pc.child != child && pc.child != cur
    ensures Undisturbed(tr, Publish(tr, cur, child), pc)
  {
  }

  lemma FirstUndisturbed(tr: Tree, me: Pc, pc: Pc)
    requires Sizes(tr) && me.Link3? && me.cur < |tr.nodes| && me.child < |tr.nodes| && ThreadInv(tr, pc)
    requires Apart(me, pc) && Apart(pc, me) && Sizes(Publish(tr, me.cur, me.child))
    ensures Undisturbed(tr, Publish(tr, me.cur, me.child), pc)
  {
    PublishUndisturbed(tr, me.cur, me.child, pc);
  }

  lemma StepUndisturbed(s: State, e: Event, pc: Pc)
    requires Sizes(s.tree) && Enabled(s, e) && OwnDetached(s, e) && ThreadInv(s.tree, s.pcs[e.t]) &&
             ThreadInv(s.tree, pc)
    requires Sizes(NextTree(s, e)) && |NextTree(s, e).nodes| == |s.tree.nodes|
    requires Apart(s.pcs[e.t], pc) && Apart(pc, s.pcs[e.t])
    requires WritesOwnNode(e.a) && Bringing(pc) ==> pc.child != OwnNode(s.pcs[e.t], e.a)
    requires Standing(pc) ==> Siblings(s.tree, pc.cur)
    requires e.a.StorePrev? ==> s.tree.home[s.pcs[e.t].head] == To(s.pcs[e.t].cur)
    ensures Undisturbed(s.tree, NextTree(s, e), pc)
  {
    if WritesOwnNode(e.a) {
      OwnUndisturbed(s, e, pc);
    } else if e.a.StorePrev? {
      HeadUndisturbed(s.tree, s.pcs[e.t].cur, s.pcs[e.t].head, s.pcs[e.t].child, pc);
    } else if e.a.StoreFirst? {
      FirstUndisturbed(s.tree, s.pcs[e.t], pc);
    } else if e.a.StoreParent? {
      var c := s.pcs[e.t].child;
      PutUndisturbed(s.tree, c, s.tree.nodes[c].(parent := To(s.pcs[e.t].cur)), pc);
    }
  }

  // ---- the tree afterwards ----

  lemma GotoDirectory(tr: Tree, pcs: seq<Pc>, t: nat, pc: Pc, p: NodeId)
    requires Sizes(tr) && p < |tr.nodes| && Directory(tr, pcs, p)
    requires t < |pcs| && !pcs[t].Link3? && !pcs[t].Link4?
    ensures Directory(tr, pcs[t := pc], p)
  {
    PendingSurvives(pcs, t, pc, p);
  }

  lemma PendingSurvives(pcs: seq<Pc>, t: nat, pc: Pc, p: NodeId)
    requires t < |pcs|
    ensures PrevAhead(pcs, p) && !(pcs[t].Link3? && pcs[t].cur == p) ==> PrevAhead(pcs[t := pc], p)
    ensures forall n :: ParentPending(pcs, n) && !(pcs[t].Link4? && pcs[t].child == n) ==>
              ParentPending(pcs[t := pc], n)
  {
    var pcs' := pcs[t := pc];
    forall u | 0 <= u < |pcs| && u != t
      ensures pcs'[u] == pcs[u]
    {
    }
    if PrevAhead(pcs, p) && !(pcs[t].Link3? && pcs[t].cur == p) {
      var u :| 0 <= u < |pcs| && pcs[u].Link3? && pcs[u].cur == p;
      assert pcs'[u].Link3?;
    }
    forall n | ParentPending(pcs, n) && !(pcs[t].Link4? && pcs[t].child == n)
      ensures ParentPending(pcs', n)
    {
      var u :| 0 <= u < |pcs| && pcs[u].Link4? && pcs[u].child == n;
      assert pcs'[u].Link4?;
    }
  }

  /** node may replace n's contents without changing any list read forwards. */
  ghost predicate SameForward(tr: Tree, n: NodeId, node: Node)
    requires Valid(tr, n)
  {
    && node.first == tr.nodes[n].first
    && (n == ROOT ==> node.parent == tr.nodes[n].parent && node.dtype == tr.nodes[n].dtype)
    && (Detached(tr, n) || (node.next == tr.nodes[n].next && node.name == tr.nodes[n].name &&
                            node.dtype == tr.nodes[n].dtype))
  }

  lemma PutForward(tr: Tree, n: NodeId, node: Node, p: NodeId)
    requires Sizes(tr) && Valid(tr, n) && SameForward(tr, n, node) && p < |tr.nodes|
    requires ForwardChain(tr, p) && Siblings(tr, p) && Listed(tr, p)
    ensures Sizes(Put(tr, n, node)) && ForwardChain(Put(tr, n, node), p)
    ensures Siblings(Put(tr, n, node), p) && Listed(Put(tr, n, node), p)
  {
    var tr' := Put(tr, n, node);
    forall i | 0 <= i < |tr.kids[p]|
      ensures InTree(tr', tr.kids[p][i]) && tr'.nodes[tr.kids[p][i]].next == tr.nodes[tr.kids[p][i]].next
      ensures tr'.nodes[tr.kids[p][i]].name == tr.nodes[tr.kids[p][i]].name
    {
      assert InTree(tr, tr.kids[p][i]);
    }
  }

  lemma PutBack(tr: Tree, pcs: seq<Pc>, c: NodeId, node: Node, p: NodeId)
    requires Sizes(tr) && Detached(tr, c) && p < |tr.nodes| && Siblings(tr, p) && BackChain(tr, pcs, p)
    requires Sizes(Put(tr, c, node)) && Siblings(Put(tr, c, node), p)
    ensures BackChain(Put(tr, c, node), pcs, p)
  {
    var tr' := Put(tr, c, node);
    forall i | 0 <= i < |tr.kids[p]|
      ensures tr'.nodes[tr.kids[p][i]] == tr.nodes[tr.kids[p][i]]
    {
      assert InTree(tr, tr.kids[p][i]);
    }
  }

  lemma PutDirectory(tr: Tree, pcs: seq<Pc>, c: NodeId, node: Node, p: NodeId)
    requires Sizes(tr) && Detached(tr, c) && SameForward(tr, c, node) && p < |tr.nodes| && Directory(tr, pcs, p)
    ensures Sizes(Put(tr, c, node)) && Directory(Put(tr, c, node), pcs, p)
  {
    PutForward(tr, c, node, p);
    PutBack(tr, pcs, c, node, p);
  }

  lemma PrevBack(tr: Tree, tr': Tree, pcs: seq<Pc>, t: nat, pc': Pc, p: NodeId)
    requires Sizes(tr) && t < |pcs| && pcs[t].Link2? && Valid(tr, pcs[t].head) && p < |tr.nodes|
    requires Siblings(tr, p) && BackChain(tr, pcs, p) && tr.home[pcs[t].head] == To(pcs[t].cur)
    requires p == pcs[t].cur ==> Nth(tr.kids[p], 0) == To(pcs[t].head)
    requires pc' == Link3(pcs[t].cur, pcs[t].path, pcs[t].child)
    requires tr' == Put(tr, pcs[t].head, tr.nodes[pcs[t].head].(prev := To(pcs[t].child))) && Sizes(tr') &&
             Siblings(tr', p)
    ensures BackChain(tr', pcs[t := pc'], p)
  {
    PendingSurvives(pcs, t, pc', p);
    assert pcs[t := pc'][t].Link3?;
    forall i | 0 <= i < |tr.kids[p]|
      ensures tr.kids[p][i] == pcs[t].head ==> p == pcs[t].cur && i == 0
    {
      assert tr.home[tr.kids[p][i]] == To(p);
    }
  }

  lemma PrevDirectory(tr: Tree, tr': Tree, pcs: seq<Pc>, t: nat, pc': Pc, p: NodeId)
    requires Sizes(tr) && t < |pcs| && pcs[t].Link2? && Valid(tr, pcs[t].head) && p < |tr.nodes|
    requires Directory(tr, pcs, p) && tr.home[pcs[t].head] == To(pcs[t].cur)
    requires p == pcs[t].cur ==> Nth(tr.kids[p], 0) == To(pcs[t].head)
    requires pc' == Link3(pcs[t].cur, pcs[t].path, pcs[t].child)
    requires tr' == Put(tr, pcs[t].head, tr.nodes[pcs[t].head].(prev := To(pcs[t].child)))
    ensures Sizes(tr') && Directory(tr', pcs[t := pc'], p)
  {
    PutForward(tr, pcs[t].head, tr.nodes[pcs[t].head].(prev := To(pcs[t].child)), p);
    PrevBack(tr, tr', pcs, t, pc', p);
  }

  lemma ParentBack(tr: Tree, tr': Tree, pcs: seq<Pc>, t: nat, pc': Pc, p: NodeId)
    requires Sizes(tr) && t < |pcs| && pcs[t].Link4? && Valid(tr, pcs[t].child) && p < |tr.nodes|
    requires Siblings(tr, p) && BackChain(tr, pcs, p) && tr.home[pcs[t].child] == To(pcs[t].cur)
    requires tr' == Put(tr, pcs[t].child, tr.nodes[pcs[t].child].(parent := To(pcs[t].cur))) && Sizes(tr') &&
             Siblings(tr', p)
    ensures BackChain(tr', pcs[t := pc'], p)
  {
    PendingSurvives(pcs, t, pc', p);
    forall i | 0 <= i < |tr.kids[p]|
      ensures tr'.nodes[tr.kids[p][i]].parent == To(p) || ParentPending(pcs[t := pc'], tr.kids[p][i])
    {
      assert tr.home[tr.kids[p][i]] == To(p);
    }
  }

  lemma ParentDirectory(tr: Tree, tr': Tree, pcs: seq<Pc>, t: nat, pc': Pc, p: NodeId)
    requires Sizes(tr) && t < |pcs| && pcs[t].Link4? && Valid(tr, pcs[t].child) && pcs[t].child != ROOT &&
             p < |tr.nodes|
    requires Directory(tr, pcs, p) && tr.home[pcs[t].child] == To(pcs[t].cur)
    requires tr' == Put(tr, pcs[t].child, tr.nodes[pcs[t].child].(parent := To(pcs[t].cur)))
    ensures Sizes(tr') && Directory(tr', pcs[t := pc'], p)
  {
    PutForward(tr, pcs[t].child, tr.nodes[pcs[t].child].(parent := To(pcs[t].cur)), p);
    ParentBack(tr, tr', pcs, t, pc', p);
  }

  /** What publishing relies on: the thread's own knowledge just before it stores cur.first. */
  ghost predicate ReadyToPublish(tr: Tree, pc: Pc) {
    Sizes(tr) && pc.Link3? && Valid(tr, pc.cur) && Detached(tr, pc.child) && ThreadInv(tr, pc)
  }

  /** Position i of the longer list. */
  lemma PublishNext(tr: Tree, pc: Pc, i: nat)
    requires ReadyToPublish(tr, pc) && ForwardChain(tr, pc.cur) && Siblings(tr, pc.cur) && i <= |tr.kids[pc.cur]|
    ensures var tr' := Publish(tr, pc.cur, pc.child);
            var kids := tr'.kids[pc.cur];
            i < |kids| && Valid(tr', kids[i]) && tr'.nodes[kids[i]].next == Nth(kids, i + 1)
  {
    var kids := [pc.child] + tr.kids[pc.cur];
    assert Nth(kids, i + 1) == Nth(tr.kids[pc.cur], i);
    if i > 0 {
      var n := tr.kids[pc.cur][i - 1];
      assert kids[i] == n && tr.nodes[n].next == Nth(tr.kids[pc.cur], i) && tr.home[n] == To(pc.cur);
    }
  }

  lemma PublishForward(tr: Tree, pc: Pc, p: NodeId)
    requires ReadyToPublish(tr, pc) && p < |tr.nodes| && ForwardChain(tr, p) && Siblings(tr, p)
    ensures Sizes(Publish(tr, pc.cur, pc.child)) && ForwardChain(Publish(tr, pc.cur, pc.child), p)
  {
    var tr' := Publish(tr, pc.cur, pc.child);
    forall i | 0 <= i < |tr'.kids[p]|
      ensures Valid(tr', tr'.kids[p][i]) && tr'.nodes[tr'.kids[p][i]].next == Nth(tr'.kids[p], i + 1)
    {
      if p == pc.cur {
        PublishNext(tr, pc, i);
      } else {
        var n := tr.kids[p][i];
        assert tr.nodes[n].next == Nth(tr.kids[p], i + 1);
      }
    }
  }

  lemma PublishSiblings(tr: Tree, pc: Pc, p: NodeId)
    requires ReadyToPublish(tr, pc) && p < |tr.nodes| && Siblings(tr, p)
    ensures Sizes(Publish(tr, pc.cur, pc.child)) && Siblings(Publish(tr, pc.cur, pc.child), p)
  {
    var tr' := Publish(tr, pc.cur, pc.child);
    forall i | 0 <= i < |tr.kids[p]|
      ensures tr.kids[p][i] != pc.child && InTree(tr', tr.kids[p][i])
    {
      assert InTree(tr, tr.kids[p][i]);
    }
    if p == pc.cur {
      assert tr'.kids[p] == [pc.child] + tr.kids[p];
      assert NoChildNamed(tr, p, tr.nodes[pc.child].name);
    }
  }

  lemma PublishListed(tr: Tree, pc: Pc, n: NodeId)
    requires ReadyToPublish(tr, pc) && n < |tr.nodes| && Listed(tr, n)
    ensures Sizes(Publish(tr, pc.cur, pc.child)) && Listed(Publish(tr, pc.cur, pc.child), n)
  {
    var tr' := Publish(tr, pc.cur, pc.child);
    assert tr'.kids[pc.cur] == [pc.child] + tr.kids[pc.cur];
    assert tr'.kids[pc.cur][0] == pc.child;
  }

  lemma PublishPrev(tr: Tree, pcs: seq<Pc>, pc: Pc, i: nat)
    requires ReadyToPublish(tr, pc) && Siblings(tr, pc.cur) && BackChain(tr, pcs, pc.cur) && 0 < i <= |tr.kids[pc.cur]|
    ensures var tr' := Publish(tr, pc.cur, pc.child);
            var kids := tr'.kids[pc.cur];
            i < |kids| && Valid(tr', kids[i]) && tr'.nodes[kids[i]].prev == To(kids[i - 1])
  {
    var n, kids := tr.kids[pc.cur][i - 1], [pc.child] + tr.kids[pc.cur];
    assert kids[i] == n && tr.home[n] == To(pc.cur);
    if i > 1 {
      assert kids[i - 1] == tr.kids[pc.cur][i - 2] && tr.nodes[n].prev == To(tr.kids[pc.cur][i - 2]);
    }
  }

  /** Parent pointers after publishing: right, or still to be set by the publishing thread or another one. */
  lemma PublishParent(tr: Tree, pcs: seq<Pc>, t: nat, p: NodeId, i: nat)
    requires t < |pcs| && ReadyToPublish(tr, pcs[t]) && p < |tr.nodes| && Siblings(tr, p) && BackChain(tr, pcs, p)
    requires i < |Publish(tr, pcs[t].cur, pcs[t].child).kids[p]|
    ensures var tr' := Publish(tr, pcs[t].cur, pcs[t].child);
            var pcs' := pcs[t := Link4(pcs[t].cur, pcs[t].path, pcs[t].child)];
            var n := tr'.kids[p][i];
            Valid(tr', n) && (tr'.nodes[n].parent == To(p) || ParentPending(pcs', n))
  {
    var pc := pcs[t];
    var pcs' := pcs[t := Link4(pc.cur, pc.path, pc.child)];
    PendingSurvives(pcs, t, Link4(pc.cur, pc.path, pc.child), p);
    assert pcs'[t].Link4? && pcs'[t].child == pc.child;
    if p == pc.cur {
      assert i > 0 ==> ([pc.child] + tr.kids[p])[i] == tr.kids[p][i - 1];
    }
  }

  lemma PublishBack(tr: Tree, pcs: seq<Pc>, t: nat, p: NodeId)
    requires t < |pcs| && ReadyToPublish(tr, pcs[t]) && p < |tr.nodes| && Siblings(tr, p) && BackChain(tr, pcs, p)
    requires Sizes(Publish(tr, pcs[t].cur, pcs[t].child)) && Siblings(Publish(tr, pcs[t].cur, pcs[t].child), p)
    ensures BackChain(Publish(tr, pcs[t].cur, pcs[t].child), pcs[t := Link4(pcs[t].cur, pcs[t].path, pcs[t].child)], p)
  {
    var pc, tr' := pcs[t], Publish(tr, pcs[t].cur, pcs[t].child);
    PendingSurvives(pcs, t, Link4(pc.cur, pc.path, pc.child), p);
    forall i | 0 <= i < |tr'.kids[p]|
      ensures tr'.nodes[tr'.kids[p][i]].parent == To(p) ||
              ParentPending(pcs[t := Link4(pc.cur, pc.path, pc.child)], tr'.kids[p][i])
    {
      PublishParent(tr, pcs, t, p, i);
    }
    if p == pc.cur {
      forall i | 0 < i < |tr'.kids[p]|
        ensures tr'.nodes[tr'.kids[p][i]].prev == To(tr'.kids[p][i - 1])
      {
        PublishPrev(tr, pcs, pc, i);
      }
    } else {
      PublishElsewhere(tr, pc, p);
    }
  }

  lemma PublishElsewhere(tr: Tree, pc: Pc, p: NodeId)
    requires ReadyToPublish(tr, pc) && p < |tr.nodes| && p != pc.cur && Siblings(tr, p)
    ensures var tr' := Publish(tr, pc.cur, pc.child);
            tr'.kids[p] == tr.kids[p] &&
            forall i :: 0 <= i < |tr.kids[p]| ==>
              Valid(tr', tr.kids[p][i]) && tr'.nodes[tr.kids[p][i]].prev == tr.nodes[tr.kids[p][i]].prev
  {
  }

  lemma PublishDirectory(tr: Tree, pcs: seq<Pc>, t: nat, p: NodeId)
    requires t < |pcs| && ReadyToPublish(tr, pcs[t]) && p < |tr.nodes| && Directory(tr, pcs, p)
    ensures Sizes(Publish(tr, pcs[t].cur, pcs[t].child))
    ensures Directory(Publish(tr, pcs[t].cur, pcs[t].child), pcs[t := Link4(pcs[t].cur, pcs[t].path, pcs[t].child)], p)
  {
    PublishForward(tr, pcs[t], p);
    PublishSiblings(tr, pcs[t], p);
    PublishBack(tr, pcs, t, p);
    PublishListed(tr, pcs[t], p);
  }

  // ---- what the invariant gives the acting thread ----

  lemma CurrentDirectory(s: State, t: nat)
    requires TreeInv(s.tree, s.pcs) && ThreadsInv(s.tree, s.pcs) && t < |s.pcs| && Standing(s.pcs[t])
    ensures InTree(s.tree, s.pcs[t].cur) && Directory(s.tree, s.pcs, s.pcs[t].cur)
  {
    assert ThreadInv(s.tree, s.pcs[t]);
    assert Directory(s.tree, s.pcs, s.pcs[t].cur);
  }

  /** A parent pointer, once set, names the directory that lists the node. */
  lemma ParentPointerIsRight(s: State, t: nat)
    requires TreeInv(s.tree, s.pcs) && ThreadsInv(s.tree, s.pcs) && t < |s.pcs| && s.pcs[t].Walk?
    requires InTree(s.tree, s.pcs[t].cur) && s.tree.nodes[s.pcs[t].cur].parent.To?
    ensures Listed(s.tree, s.pcs[t].cur) && s.tree.home[s.pcs[t].cur].To?
    ensures s.tree.nodes[s.pcs[t].cur].parent == s.tree.home[s.pcs[t].cur]
    ensures Directory(s.tree, s.pcs, s.tree.home[s.pcs[t].cur].n)
  {
    var cur := s.pcs[t].cur;
    assert Directory(s.tree, s.pcs, cur);
    assert Directory(s.tree, s.pcs, s.tree.home[cur].n);
    forall u | 0 <= u < |s.pcs| && s.pcs[u].Link4?
      ensures s.pcs[u].child != cur
    {
      assert ThreadInv(s.tree, s.pcs[u]);
    }
  }

  lemma ListedIsInTree(tr: Tree, pcs: seq<Pc>, n: NodeId)
    requires TreeInv(tr, pcs) && n < |tr.nodes| && tr.home[n].To?
    ensures InTree(tr, n)
  {
    assert Directory(tr, pcs, n);
    assert Directory(tr, pcs, tr.home[n].n);
  }

  /** A free node is in no list and known to no thread. */
  lemma FreeIsUnknown(s: State, t: nat, c: NodeId)
    requires TreeInv(s.tree, s.pcs) && ThreadsInv(s.tree, s.pcs) && c < |s.tree.nodes| && s.tree.nodes[c].dtype == FREE
    ensures Detached(s.tree, c) && KnownOnlyTo(s.pcs, t, c)
    ensures t < |s.pcs| && s.pcs[t].Alloc? ==> s.pcs[t].cur != c
  {
    assert Directory(s.tree, s.pcs, c);
    if s.tree.home[c].To? {
      ListedIsInTree(s.tree, s.pcs, c);
    }
    forall u | 0 <= u < |s.pcs|
      ensures !Knows(s.pcs[u], c) && (Bringing(s.pcs[u]) ==> s.pcs[u].child != c)
    {
      assert ThreadInv(s.tree, s.pcs[u]);
    }
  }

  lemma OwnIsUnknown(s: State, t: nat)
    requires Sizes(s.tree) && t < |s.pcs| && ThreadInv(s.tree, s.pcs[t]) && AllApart(s.pcs)
    requires Bringing(s.pcs[t]) && !s.pcs[t].Link4?
    ensures Detached(s.tree, s.pcs[t].child) && KnownOnlyTo(s.pcs, t, s.pcs[t].child) && s.pcs[t].cur != s.pcs[t].child
  {
    forall u | 0 <= u < |s.pcs| && u != t
      ensures !Knows(s.pcs[u], s.pcs[t].child) && (Bringing(s.pcs[u]) ==> s.pcs[u].child != s.pcs[t].child)
    {
      assert Apart(s.pcs[t], s.pcs[u]);
    }
  }

  lemma OwnDetachedHolds(s: State, e: Event)
    requires Inv(s) && Enabled(s, e)
    ensures OwnDetached(s, e)
    ensures WritesOwnNode(e.a) ==> s.pcs[e.t].cur != OwnNode(s.pcs[e.t], e.a)
  {
    if e.a.Claim? {
      FreeIsUnknown(s, e.t, e.a.got);
    } else if WritesOwnNode(e.a) || e.a.StoreFirst? {
      assert ThreadInv(s.tree, s.pcs[e.t]);
      OwnIsUnknown(s, e.t);
    }
  }

  // ---- one step keeps everything ----

  /** Steps that store into the tree. */
  lemma StoringThread(s: State, e: Event)
    requires Inv(s) && Enabled(s, e)
    requires WritesOwnNode(e.a) || e.a.StorePrev? || e.a.StoreFirst? || e.a.StoreParent?
    ensures Sizes(NextTree(s, e)) && ThreadInv(NextTree(s, e), NextPc(s, e))
  {
    assert ThreadInv(s.tree, s.pcs[e.t]);
    CurrentDirectory(s, e.t);
    if WritesOwnNode(e.a) {
      OwnDetachedHolds(s, e);
      if e.a.StoreNext? {
        NextThread(s, e);
      } else {
        LoadThread(s, e);
      }
    } else if e.a.StorePrev? {
      PrevThread(s, e);
    } else if e.a.StoreFirst? {
      FirstThread(s, e);
    } else {
      ParentThread(s, e);
    }
  }

  /** Steps that only read it. */
  lemma ReadingThread(s: State, e: Event)
    requires Inv(s) && Enabled(s, e)
    requires !WritesOwnNode(e.a) && !e.a.StorePrev? && !e.a.StoreFirst? && !e.a.StoreParent?
    ensures ThreadInv(s.tree, NextPc(s, e))
  {
    var pc := s.pcs[e.t];
    assert ThreadInv(s.tree, pc);
    if Standing(pc) {
      CurrentDirectory(s, e.t);
    }
    if e.a.ScanNext? || e.a.StartScan? || e.a.UpgradeLock? {
      if e.a.ScanNext? {
        assert Directory(s.tree, s.pcs, pc.pos.n);
      }
      ScanThread(s, e);
    } else if e.a.ScanHit? {
      HitThread(s, e);
    } else if e.a.Up? {
      ParentPointerIsRight(s, e.t);
      UpThread(s, e);
    } else if e.a.DownUnlock? {
      assert Directory(s.tree, s.pcs, pc.child);
      DownThread(s, e);
    } else {
      MoveThread(s, e);
    }
  }

  lemma ActingThread(s: State, e: Event)
    requires Inv(s) && Enabled(s, e)
    ensures Sizes(NextTree(s, e)) && ThreadInv(NextTree(s, e), NextPc(s, e))
  {
    if WritesOwnNode(e.a) || e.a.StorePrev? || e.a.StoreFirst? || e.a.StoreParent? {
      StoringThread(s, e);
    } else {
      ReadingThread(s, e);
    }
  }

  /** What a gaining step lets the thread know is nobody's unlisted node. */
  lemma LearnedIsListed(s: State, e: Event, u: nat)
    requires Inv(s) && Enabled(s, e) && !Shrinking(e.a) && u < |s.pcs| && u != e.t && Unlisted(s.pcs[u])
    ensures !Knows(NextPc(s, e), s.pcs[u].child)
  {
    ActingThread(s, e);
    assert Apart(s.pcs[u], s.pcs[e.t]) && ThreadInv(s.tree, s.pcs[u]);
    assert ThreadInv(s.tree, s.pcs[e.t]);
    if Knows(NextPc(s, e), s.pcs[u].child) {
      KnownIsLive(NextTree(s, e), NextPc(s, e), s.pcs[u].child);
      LiveIsListed(s.tree, s.pcs[u], s.pcs[u].child);
    }
  }

  lemma StepApart(s: State, e: Event)
    requires Inv(s) && Enabled(s, e)
    ensures AllApart(Apply(s, e).pcs)
  {
    if Shrinking(e.a) {
      ShrinkingShrinks(s, e);
      ShrinkApart(s.pcs, e.t, NextPc(s, e));
    } else {
      forall u | 0 <= u < |s.pcs| && u != e.t && Unlisted(s.pcs[u])
        ensures !Knows(NextPc(s, e), s.pcs[u].child)
      {
        LearnedIsListed(s, e, u);
      }
      OwnDetachedHolds(s, e);
      GainApart(s, e);
    }
    GotoApart(s.pcs, e.t, NextPc(s, e));
  }

  lemma OtherThread(s: State, e: Event, u: nat)
    requires Inv(s) && Enabled(s, e) && u < |s.pcs| && u != e.t && Sizes(NextTree(s, e))
    ensures ThreadInv(NextTree(s, e), s.pcs[u])
  {
    assert ThreadInv(s.tree, s.pcs[e.t]) && ThreadInv(s.tree, s.pcs[u]);
    assert Apart(s.pcs[e.t], s.pcs[u]) && Apart(s.pcs[u], s.pcs[e.t]);
    OwnDetachedHolds(s, e);
    if Standing(s.pcs[u]) {
      CurrentDirectory(s, u);
    }
    if e.a.StorePrev? {
      CurrentDirectory(s, e.t);
    }
    StepEvolves(s, e);
    StepUndisturbed(s, e, s.pcs[u]);
    FrameThread(s.tree, NextTree(s, e), s.pcs[u]);
  }

  lemma StepThreads(s: State, e: Event)
    requires Inv(s) && Enabled(s, e)
    ensures Sizes(NextTree(s, e)) && ThreadsInv(NextTree(s, e), Apply(s, e).pcs)
  {
    ActingThread(s, e);
    forall u | 0 <= u < |s.pcs| && u != e.t
      ensures ThreadInv(NextTree(s, e), s.pcs[u])
    {
      OtherThread(s, e, u);
    }
  }

  lemma StepDirectory(s: State, e: Event, p: NodeId)
    requires Inv(s) && Enabled(s, e) && p < |s.tree.nodes|
    ensures Sizes(NextTree(s, e)) && Directory(NextTree(s, e), Apply(s, e).pcs, p)
  {
    var pc, pc' := s.pcs[e.t], NextPc(s, e);
    assert ThreadInv(s.tree, pc) && Directory(s.tree, s.pcs, p);
    if WritesOwnNode(e.a) {
      OwnDirectory(s, e, p);
    } else if e.a.StorePrev? {
      CurrentDirectory(s, e.t);
      PrevDirectory(s.tree, NextTree(s, e), s.pcs, e.t, pc', p);
    } else if e.a.StoreFirst? {
      OwnDetachedHolds(s, e);
      PublishDirectory(s.tree, s.pcs, e.t, p);
    } else if e.a.StoreParent? {
      ParentDirectory(s.tree, NextTree(s, e), s.pcs, e.t, pc', p);
    } else {
      GotoDirectory(s.tree, s.pcs, e.t, pc', p);
    }
  }

  lemma OwnDirectory(s: State, e: Event, p: NodeId)
    requires Inv(s) && Enabled(s, e) && WritesOwnNode(e.a) && p < |s.tree.nodes|
    ensures Sizes(NextTree(s, e)) && Directory(NextTree(s, e), Apply(s, e).pcs, p)
  {
    var c := OwnNode(s.pcs[e.t], e.a);
    var node := NextTree(s, e).nodes[c];
    assert Directory(s.tree, s.pcs, p) && Directory(s.tree, s.pcs, c);
    OwnDetachedHolds(s, e);
    assert NextTree(s, e).nodes == s.tree.nodes[c := node];
    PutDirectory(s.tree, s.pcs, c, node, p);
    GotoDirectory(NextTree(s, e), s.pcs, e.t, NextPc(s, e), p);
  }

  lemma ActingWriter(s: State, e: Event)
    requires Inv(s) && Enabled(s, e) && Modifying(NextPc(s, e))
    ensures NextPc(s, e).cur < |s.words| && NextWords(s, e)[NextPc(s, e).cur] < 0
  {
    OwnDetachedHolds(s, e);
  }

  lemma OtherWriter(s: State, e: Event, u: nat)
    requires Inv(s) && Enabled(s, e) && u < |s.pcs| && u != e.t && Modifying(s.pcs[u])
    ensures s.pcs[u].cur < |s.words| && NextWords(s, e)[s.pcs[u].cur] < 0
  {
    OwnDetachedHolds(s, e);
    assert Apart(s.pcs[e.t], s.pcs[u]) && Apart(s.pcs[u], s.pcs[e.t]);
  }

  lemma StepWriters(s: State, e: Event)
    requires Inv(s) && Enabled(s, e)
    ensures WritersInv(NextWords(s, e), Apply(s, e).pcs)
  {
    var pcs' := Apply(s, e).pcs;
    forall u | 0 <= u < |pcs'| && Modifying(pcs'[u])
      ensures pcs'[u].cur < |s.words| && NextWords(s, e)[pcs'[u].cur] < 0
    {
      if u != e.t {
        OtherWriter(s, e, u);
      } else {
        ActingWriter(s, e);
      }
    }
  }

  lemma StepKeepsInv(s: State, e: Event)
    requires Inv(s) && Enabled(s, e)
    ensures Inv(Apply(s, e))
  {
    StepApart(s, e);
    StepThreads(s, e);
    StepWriters(s, e);
    forall p | 0 <= p < |s.tree.nodes|
      ensures Directory(NextTree(s, e), Apply(s, e).pcs, p)
    {
      StepDirectory(s, e, p);
    }
  }

  // ---- the theorems ----

  lemma {:induction false} RunKeepsInv(s: State, es: seq<Event>)
    requires Inv(s) && IsRun(s, es)
    ensures Inv(Exec(s, es)) && |Exec(s, es).tree.nodes| == |s.tree.nodes|
    decreases es
  {
    if es != [] {
      StepKeepsInv(s, es[0]);
      RunKeepsInv(Apply(s, es[0]), es[1..]);
    }
  }

  lemma InitInv(pool: nat, threads: nat)
    requires pool > 0
    ensures Inv(Init(pool, threads))
  {
  }

  /** No two listed children of p are the same node or have the same name. */
  ghost predicate UniqueNames(tr: Tree, p: NodeId) {
    && p < |tr.kids|
    && (forall i :: 0 <= i < |tr.kids[p]| ==> Valid(tr, tr.kids[p][i]))
    && (forall i, j :: 0 <= i < j < |tr.kids[p]| ==>
          tr.kids[p][i] != tr.kids[p][j] && tr.nodes[tr.kids[p][i]].name != tr.nodes[tr.kids[p][j]].name)
  }

  /** Following first and next from p visits exactly kids[p] and ends. */
  ghost predicate ChainSpells(tr: Tree, p: NodeId) {
    && p < |tr.nodes| && p < |tr.kids| && tr.nodes[p].first == Nth(tr.kids[p], 0)
    && (forall i :: 0 <= i < |tr.kids[p]| ==>
          Valid(tr, tr.kids[p][i]) && tr.nodes[tr.kids[p][i]].next == Nth(tr.kids[p], i + 1))
  }

  /** Every listed child points back to its predecessor and up to p. */
  ghost predicate BackLinksExact(tr: Tree, p: NodeId) {
    && p < |tr.kids|
    && forall i :: 0 <= i < |tr.kids[p]| ==>
         && Valid(tr, tr.kids[p][i])
         && tr.nodes[tr.kids[p][i]].prev == (if i == 0 then Null else To(tr.kids[p][i - 1]))
         && tr.nodes[tr.kids[p][i]].parent == To(p)
  }

  lemma NoPrevAhead(pcs: seq<Pc>, p: NodeId)
    requires NoWriter(pcs, p)
    ensures !PrevAhead(pcs, p)
  {
    forall t | 0 <= t < |pcs| && pcs[t].Link3?
      ensures pcs[t].cur != p
    {
      assert !HoldsWrite(pcs[t], p);
    }
  }

  lemma NoParentPending(s: State, p: NodeId, i: nat)
    requires Sizes(s.tree) && ThreadsInv(s.tree, s.pcs) && p < |s.tree.nodes| && i < |s.tree.kids[p]|
    requires Siblings(s.tree, p) && NoWriter(s.pcs, p)
    ensures !ParentPending(s.pcs, s.tree.kids[p][i])
  {
    assert s.tree.home[s.tree.kids[p][i]] == To(p);
    forall t | 0 <= t < |s.pcs| && s.pcs[t].Link4?
      ensures s.pcs[t].child != s.tree.kids[p][i]
    {
      assert ThreadInv(s.tree, s.pcs[t]) && !HoldsWrite(s.pcs[t], p);
    }
  }

  lemma UnlockedIsExact(s: State, p: NodeId)
    requires Sizes(s.tree) && ThreadsInv(s.tree, s.pcs) && p < |s.tree.nodes|
    requires Siblings(s.tree, p) && BackChain(s.tree, s.pcs, p) && NoWriter(s.pcs, p)
    ensures BackLinksExact(s.tree, p)
  {
    NoPrevAhead(s.pcs, p);
    forall i | 0 <= i < |s.tree.kids[p]|
      ensures !ParentPending(s.pcs, s.tree.kids[p][i])
    {
      NoParentPending(s, p, i);
    }
  }

  /**
    In every interleaving of any number of lookups of any paths -- also of those that release a lock
    twice -- no directory has two children with one name and every sibling chain is acyclic and
    complete; whenever nobody holds the directory for writing, its backward and parent links are
    exact as well.
   */
  lemma EveryInterleavingKeepsTheTree(pool: nat, threads: nat, es: seq<Event>, p: NodeId)
    requires pool > 0 && IsRun(Init(pool, threads), es) && p < pool
    ensures var s := Exec(Init(pool, threads), es);
            && UniqueNames(s.tree, p) && ChainSpells(s.tree, p)
            && (NoWriter(s.pcs, p) ==> BackLinksExact(s.tree, p))
  {
    InitInv(pool, threads);
    RunKeepsInv(Init(pool, threads), es);
    var s := Exec(Init(pool, threads), es);
    assert Directory(s.tree, s.pcs, p);
    if NoWriter(s.pcs, p) {
      UnlockedIsExact(s, p);
    }
  }

  /**
    One step changes at most one child list.  It puts one new child in front, under a name the list
    does not have, while the acting thread and no other holds the directory for writing.
   */
  lemma ListChangesUnderWriteLock(s: State, e: Event, p: NodeId)
    requires Inv(s) && Enabled(s, e) && p < |s.tree.kids|
    ensures p < |Apply(s, e).tree.kids|
    ensures var kids, kids' := s.tree.kids[p], Apply(s, e).tree.kids[p];
            kids' == kids ||
            (&& HoldsWrite(s.pcs[e.t], p) && (forall u :: 0 <= u < |s.pcs| && u != e.t ==> !HoldsWrite(s.pcs[u], p))
             && s.pcs[e.t].Link3? && s.pcs[e.t].path != [] && kids' == [s.pcs[e.t].child] + kids
             && NoChildNamed(s.tree, p, s.pcs[e.t].path[0]))
  {
    if e.a.StoreFirst? && p == s.pcs[e.t].cur {
      assert ThreadInv(s.tree, s.pcs[e.t]);
      forall u | 0 <= u < |s.pcs| && u != e.t
        ensures !HoldsWrite(s.pcs[u], p)
      {
        assert Apart(s.pcs[e.t], s.pcs[u]);
      }
    }
  }

  /** kids' is kids with newer children in front. */
  ghost predicate Extends(kids: seq<NodeId>, kids': seq<NodeId>) {
    |kids| <= |kids'| && kids'[|kids'| - |kids|..] == kids
  }

  lemma ExtendsTwice(kids: seq<NodeId>, kids': seq<NodeId>, kids'': seq<NodeId>)
    requires Extends(kids, kids') && Extends(kids', kids'')
    ensures Extends(kids, kids'')
  {
    assert kids''[|kids''| - |kids'|..][|kids'| - |kids|..] == kids''[|kids''| - |kids|..];
  }

  lemma StepExtends(s: State, e: Event, p: NodeId)
    requires Inv(s) && Enabled(s, e) && p < |s.tree.kids|
    ensures p < |Apply(s, e).tree.kids| && Extends(s.tree.kids[p], Apply(s, e).tree.kids[p])
  {
    ListChangesUnderWriteLock(s, e, p);
  }

  /** Child lists only grow: what was listed stays listed, in the same order, at the end. */
  lemma {:induction false} ListsOnlyGrow(s: State, es: seq<Event>, p: NodeId)
    requires Inv(s) && IsRun(s, es) && p < |s.tree.kids|
    ensures p < |Exec(s, es).tree.kids| && Extends(s.tree.kids[p], Exec(s, es).tree.kids[p])
    decreases es
  {
    if es != [] {
      StepKeepsInv(s, es[0]);
      StepExtends(s, es[0], p);
      ListsOnlyGrow(Apply(s, es[0]), es[1..], p);
      ExtendsTwice(s.tree.kids[p], Apply(s, es[0]).tree.kids[p], Exec(s, es).tree.kids[p]);
    }
  }
}
