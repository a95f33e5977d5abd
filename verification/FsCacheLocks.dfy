/**
  The node locks of the cache tree while no lookup has released one twice, and what the second
  release of a lookup that climbs above the root does.
 */
module FsCacheLocks {
  import opened Common
  import opened FsCache

  // ---- counting readers ----

  function One(pc: Pc, n: NodeId): nat { if HoldsRead(pc, n) then 1 else 0 }

  function Readers(pcs: seq<Pc>, n: NodeId): nat {
    if pcs == [] then 0 else One(pcs[0], n) + Readers(pcs[1..], n)
  }

  lemma {:induction false} ReadersUpdate(pcs: seq<Pc>, t: nat, pc: Pc, n: NodeId)
    requires t < |pcs|
    ensures Readers(pcs[t := pc], n) == Readers(pcs, n) - One(pcs[t], n) + One(pc, n)
  {
    if t == 0 {
      assert pcs[t := pc][1..] == pcs[1..];
    } else {
      assert pcs[t := pc][1..] == pcs[1..][t - 1 := pc];
      ReadersUpdate(pcs[1..], t - 1, pc, n);
    }
  }

  lemma {:induction false} ReadersCount(pcs: seq<Pc>, t: nat, n: NodeId)
    requires t < |pcs|
    ensures Readers(pcs, n) >= One(pcs[t], n)
    ensures (forall u :: 0 <= u < |pcs| && u != t ==> !HoldsRead(pcs[u], n)) ==> Readers(pcs, n) == One(pcs[t], n)
  {
    if t > 0 {
      ReadersCount(pcs[1..], t - 1, n);
      assert pcs[1..][t - 1] == pcs[t];
    } else {
      NoReaders(pcs[1..], n);
    }
  }

  lemma {:induction false} NoReaders(pcs: seq<Pc>, n: NodeId)
    ensures Readers(pcs, n) == 0 <==> forall u :: 0 <= u < |pcs| ==> !HoldsRead(pcs[u], n)
  {
    if pcs != [] {
      NoReaders(pcs[1..], n);
      if Readers(pcs, n) == 0 {
        forall u | 0 <= u < |pcs|
          ensures !HoldsRead(pcs[u], n)
        {
          assert u > 0 ==> pcs[u] == pcs[1..][u - 1];
        }
      }
    }
  }

  // ---- the invariant ----

  /** The word counts the holders: -1 for one writer and no reader, otherwise the readers. */
  ghost predicate WordOk(words: seq<int>, pcs: seq<Pc>, n: NodeId)
    requires n < |words|
  {
    if NoWriter(pcs, n) then words[n] == Readers(pcs, n) else words[n] == -1 && Readers(pcs, n) == 0
  }

  ghost predicate Balanced(s: State) {
    && (forall n {:trigger WordOk(s.words, s.pcs, n)} :: 0 <= n < |s.words| && Live(s.tree, n) ==>
          WordOk(s.words, s.pcs, n))
    && (forall t :: 0 <= t < |s.pcs| && Unlisted(s.pcs[t]) && !s.pcs[t].Wipe? ==>
          s.pcs[t].child < |s.words| && s.words[s.pcs[t].child] == 1)
  }

  /** Nobody else knows a node whose parent pointer is still to be set. */
  ghost predicate Settled(s: State) {
    && (forall u :: 0 <= u < |s.pcs| && s.pcs[u].Link4? ==> s.pcs[u].child < |s.tree.kids| &&
                                                            s.tree.kids[s.pcs[u].child] == [])
    && (forall t, u :: 0 <= t < |s.pcs| && 0 <= u < |s.pcs| && t != u && s.pcs[u].Link4? ==>
          !Knows(s.pcs[t], s.pcs[u].child))
    && (forall t :: 0 <= t < |s.pcs| && s.pcs[t].Climbed? ==> s.pcs[t].cur == ROOT)
  }

  ghost predicate Clean(s: State) {
    Inv(s) && Balanced(s) && Settled(s)
  }

  /** A directory held for writing is held by nobody else in any mode. */
  lemma Exclusion(s: State, t: nat, u: nat, n: NodeId)
    requires Inv(s) && Balanced(s) && t < |s.pcs| && u < |s.pcs| && HoldsWrite(s.pcs[u], n)
    ensures !HoldsRead(s.pcs[t], n)
  {
    assert ThreadInv(s.tree, s.pcs[u]) && WordOk(s.words, s.pcs, n);
    NoReaders(s.pcs, n);
  }

  // ---- one step of one lock ----

  /** A thread's own claimed node is not the directory it works on, and neither is a child. */
  lemma OwnHolds(s: State, t: nat)
    requires Inv(s) && t < |s.pcs| && Modifying(s.pcs[t])
    ensures !HoldsRead(s.pcs[t], s.pcs[t].cur)
  {
    var pc := s.pcs[t];
    assert ThreadInv(s.tree, pc);
    if pc.DownRelease? || pc.Link4? {
      assert Directory(s.tree, s.pcs, pc.child);
    }
  }

  /** A node, its parent and the node a thread brings in are three. */
  ghost predicate Distinct(tr: Tree, pc: Pc) {
    && (pc.UpWait? || pc.UpRelease? ==> pc.par != pc.cur)
    && (pc.DownWait? || pc.DownRelease? || Bringing(pc) ==> pc.child != pc.cur)
    && (Unlisted(pc) ==> !Live(tr, pc.child))
  }

  lemma ThreadDistinct(s: State, t: nat)
    requires Inv(s) && t < |s.pcs|
    ensures Distinct(s.tree, s.pcs[t])
  {
    var pc := s.pcs[t];
    assert ThreadInv(s.tree, pc);
    if pc.UpWait? || pc.UpRelease? {
      assert Directory(s.tree, s.pcs, pc.cur);
    }
    if pc.DownWait? || pc.DownRelease? || pc.Link4? {
      assert Directory(s.tree, s.pcs, pc.child);
    }
  }

  /** Locking and unlocking for reading moves the word with the holder. */
  lemma ReaderMoves(s: State, e: Event, n: NodeId)
    requires Enabled(s, e) && !e.a.ReleaseAgain? && n < |s.words| && Live(s.tree, n)
    requires Distinct(s.tree, s.pcs[e.t]) && !HoldsWrite(s.pcs[e.t], n) && !HoldsWrite(NextPc(s, e), n)
    ensures NextWords(s, e)[n] - s.words[n] == One(NextPc(s, e), n) - One(s.pcs[e.t], n)
    ensures HoldsRead(NextPc(s, e), n) && !HoldsRead(s.pcs[e.t], n) ==> s.words[n] >= 0
  {
  }

  /** What happens to the lock of a directory the acting thread holds, takes or gives back for writing. */
  lemma WriterMoves(s: State, e: Event, n: NodeId)
    requires Enabled(s, e) && n < |s.words| && Live(s.tree, n)
    requires Distinct(s.tree, s.pcs[e.t]) && (HoldsWrite(s.pcs[e.t], n) || HoldsWrite(NextPc(s, e), n))
    ensures !HoldsWrite(s.pcs[e.t], n) ==> s.words[n] == 0 && NextWords(s, e)[n] == -1
    ensures HoldsWrite(s.pcs[e.t], n) ==>
              NextWords(s, e)[n] == if HoldsWrite(NextPc(s, e), n) then s.words[n] else One(NextPc(s, e), n)
    ensures One(s.pcs[e.t], n) == 0 && (HoldsWrite(NextPc(s, e), n) ==> One(NextPc(s, e), n) == 0)
  {
  }

  lemma OthersDoNotWrite(pcs: seq<Pc>, t: nat, n: NodeId)
    requires AllApart(pcs) && t < |pcs| && HoldsWrite(pcs[t], n)
    ensures forall u :: 0 <= u < |pcs| && u != t ==> !HoldsWrite(pcs[u], n)
  {
    forall u | 0 <= u < |pcs| && u != t
      ensures !HoldsWrite(pcs[u], n)
    {
      assert Apart(pcs[t], pcs[u]);
    }
  }

  lemma WriterWord(s: State, e: Event, n: NodeId)
    requires Inv(s) && Enabled(s, e) && n < |s.words| && Live(s.tree, n) && WordOk(s.words, s.pcs, n)
    requires HoldsWrite(s.pcs[e.t], n) || HoldsWrite(NextPc(s, e), n)
    ensures WordOk(NextWords(s, e), Apply(s, e).pcs, n)
  {
    var pcs' := Apply(s, e).pcs;
    ThreadDistinct(s, e.t);
    WriterMoves(s, e, n);
    ReadersUpdate(s.pcs, e.t, NextPc(s, e), n);
    if HoldsWrite(s.pcs[e.t], n) {
      OthersDoNotWrite(s.pcs, e.t, n);
    }
    assert pcs'[e.t] == NextPc(s, e);
  }

  lemma ReaderWord(s: State, e: Event, n: NodeId)
    requires Inv(s) && Enabled(s, e) && !e.a.ReleaseAgain? && n < |s.words| && Live(s.tree, n) &&
             WordOk(s.words, s.pcs, n)
    requires !HoldsWrite(s.pcs[e.t], n) && !HoldsWrite(NextPc(s, e), n)
    ensures WordOk(NextWords(s, e), Apply(s, e).pcs, n)
  {
    var pcs' := Apply(s, e).pcs;
    ThreadDistinct(s, e.t);
    ReaderMoves(s, e, n);
    ReadersUpdate(s.pcs, e.t, NextPc(s, e), n);
    ReadersCount(s.pcs, e.t, n);
    if NoWriter(pcs', n) {
      forall u | 0 <= u < |s.pcs|
        ensures !HoldsWrite(s.pcs[u], n)
      {
        assert u != e.t ==> pcs'[u] == s.pcs[u];
      }
    } else {
      var u :| 0 <= u < |pcs'| && HoldsWrite(pcs'[u], n);
      assert pcs'[u] == s.pcs[u];
    }
  }

  /** The child that has just been listed: held by the thread that lists it and unknown to all others. */
  lemma ListedWord(s: State, e: Event)
    requires Inv(s) && Balanced(s) && Enabled(s, e) && e.a.StoreFirst?
    ensures WordOk(NextWords(s, e), Apply(s, e).pcs, s.pcs[e.t].child)
  {
    var c, pcs' := s.pcs[e.t].child, Apply(s, e).pcs;
    ThreadDistinct(s, e.t);
    forall u | 0 <= u < |pcs'| && u != e.t
      ensures !HoldsRead(pcs'[u], c) && !HoldsWrite(pcs'[u], c)
    {
      assert Apart(s.pcs[e.t], s.pcs[u]) && pcs'[u] == s.pcs[u];
    }
    ReadersCount(pcs', e.t, c);
  }

  lemma StepBalanced(s: State, e: Event)
    requires Inv(s) && Balanced(s) && Enabled(s, e) && !e.a.ReleaseAgain?
    ensures Balanced(Apply(s, e))
  {
    var s' := Apply(s, e);
    forall n | 0 <= n < |s'.words| && Live(s'.tree, n)
      ensures WordOk(s'.words, s'.pcs, n)
    {
      if e.a.StoreFirst? && n == s.pcs[e.t].child {
        ListedWord(s, e);
      } else {
        assert Live(s.tree, n) && WordOk(s.words, s.pcs, n);
        if HoldsWrite(s.pcs[e.t], n) || HoldsWrite(NextPc(s, e), n) {
          WriterWord(s, e, n);
        } else {
          ReaderWord(s, e, n);
        }
      }
    }
    forall t | 0 <= t < |s'.pcs| && Unlisted(s'.pcs[t]) && !s'.pcs[t].Wipe?
      ensures s'.pcs[t].child < |s'.words| && s'.words[s'.pcs[t].child] == 1
    {
      StepUnlistedWord(s, e, t);
    }
  }

  lemma StepUnlistedWord(s: State, e: Event, t: nat)
    requires Inv(s) && Balanced(s) && Enabled(s, e) && !e.a.ReleaseAgain? && t < |s.pcs|
    requires Unlisted(Apply(s, e).pcs[t]) && !Apply(s, e).pcs[t].Wipe?
    ensures var c := Apply(s, e).pcs[t].child; c < |s.words| && NextWords(s, e)[c] == 1
  {
    ThreadDistinct(s, e.t);
    if t != e.t {
      assert Apart(s.pcs[e.t], s.pcs[t]) && Apart(s.pcs[t], s.pcs[e.t]) && ThreadInv(s.tree, s.pcs[e.t]);
      assert ThreadInv(s.tree, s.pcs[t]);
    }
  }

  // ---- nodes without a parent pointer ----

  /** A thread that scans a directory held by a linking thread would break exclusion. */
  lemma ScansNoPending(s: State, e: Event, u: nat)
    requires Inv(s) && Balanced(s) && Enabled(s, e) && u < |s.pcs| && u != e.t && s.pcs[u].Link4?
    requires e.a.ScanNext? || e.a.StartScan? || e.a.UpgradeLock?
    ensures s.pcs[e.t].cur != s.pcs[u].cur
  {
    Exclusion(s, e.t, u, s.pcs[u].cur);
    assert Apart(s.pcs[u], s.pcs[e.t]);
  }

  lemma ClimbsToNoPending(s: State, e: Event, u: nat)
    requires Clean(s) && Enabled(s, e) && u < |s.pcs| && s.pcs[u].Link4? && e.a.Up?
    ensures NextPc(s, e).par != s.pcs[u].child
  {
    assert ThreadInv(s.tree, s.pcs[e.t]);
    ParentPointerIsRight(s, e.t);
  }

  lemma FirstIsNotPending(tr: Tree, pc: Pc, other: Pc)
    requires Sizes(tr) && pc.Link1? && other.Link4? && pc.cur != other.cur
    requires ThreadInv(tr, pc) && ThreadInv(tr, other) && Siblings(tr, pc.cur)
    ensures Nth(tr.kids[pc.cur], 0) != To(other.child)
  {
    if tr.kids[pc.cur] != [] {
      assert tr.home[tr.kids[pc.cur][0]] == To(pc.cur);
    }
  }

  lemma LinksNoPending(s: State, t: nat, u: nat)
    requires Inv(s) && t < |s.pcs| && u < |s.pcs| && u != t && s.pcs[u].Link4? && s.pcs[t].Link1?
    ensures s.pcs[t].cur < |s.tree.nodes| && s.tree.nodes[s.pcs[t].cur].first != To(s.pcs[u].child)
  {
    assert Apart(s.pcs[u], s.pcs[t]) && ThreadInv(s.tree, s.pcs[u]) && ThreadInv(s.tree, s.pcs[t]);
    CurrentDirectory(s, t);
    FirstIsNotPending(s.tree, s.pcs[t], s.pcs[u]);
  }

  /** The steps that read no pointer of the tree. */
  lemma LearnsNothing(s: State, e: Event, c: NodeId)
    requires Enabled(s, e) && !Knows(s.pcs[e.t], c) && !e.a.Up? && !e.a.StoreNext?
    requires !e.a.ScanNext? && !e.a.StartScan? && !e.a.UpgradeLock?
    requires (e.a.LockRoot? ==> c != ROOT) && (e.a.StoreParent? ==> c != s.pcs[e.t].child)
    ensures !Knows(NextPc(s, e), c)
  {
  }

  /** What a thread may come to know while u has not set its child's parent pointer. */
  lemma LearnsNoPending(s: State, e: Event, u: nat)
    requires Clean(s) && Enabled(s, e) && u < |s.pcs| && u != e.t && s.pcs[u].Link4?
    ensures !Knows(NextPc(s, e), s.pcs[u].child)
  {
    var c := s.pcs[u].child;
    assert ThreadInv(s.tree, s.pcs[u]) && !Knows(s.pcs[e.t], c) && Apart(s.pcs[u], s.pcs[e.t]);
    if e.a.Up? {
      ClimbsToNoPending(s, e, u);
    } else if e.a.ScanNext? || e.a.StartScan? || e.a.UpgradeLock? {
      ReadingThread(s, e);
      ScansNoPending(s, e, u);
    } else if e.a.StoreNext? {
      LinksNoPending(s, e.t, u);
    } else {
      LearnsNothing(s, e, c);
    }
  }

  lemma StepKeepsPendingEmpty(s: State, e: Event, u: nat)
    requires Clean(s) && Enabled(s, e) && u < |s.pcs| && Apply(s, e).pcs[u].Link4?
    ensures var c := Apply(s, e).pcs[u].child; c < |NextTree(s, e).kids| && NextTree(s, e).kids[c] == []
  {
    assert ThreadInv(s.tree, s.pcs[u]);
    ThreadDistinct(s, u);
  }

  lemma StepKeepsPendingUnknown(s: State, e: Event, t: nat, u: nat)
    requires Clean(s) && Enabled(s, e) && t < |s.pcs| && u < |s.pcs| && t != u && Apply(s, e).pcs[u].Link4?
    ensures !Knows(Apply(s, e).pcs[t], Apply(s, e).pcs[u].child)
  {
    if t == e.t {
      LearnsNoPending(s, e, u);
    } else if u == e.t {
      assert Apart(s.pcs[u], s.pcs[t]);
    }
  }

  lemma StepSettled(s: State, e: Event)
    requires Clean(s) && Enabled(s, e) && !e.a.ReleaseAgain?
    ensures Settled(Apply(s, e))
  {
    var s' := Apply(s, e);
    forall t, u | 0 <= t < |s'.pcs| && 0 <= u < |s'.pcs| && t != u && s'.pcs[u].Link4?
      ensures !Knows(s'.pcs[t], s'.pcs[u].child)
    {
      StepKeepsPendingUnknown(s, e, t, u);
    }
    forall u | 0 <= u < |s'.pcs| && s'.pcs[u].Link4?
      ensures s'.pcs[u].child < |s'.tree.kids| && s'.tree.kids[s'.pcs[u].child] == []
    {
      StepKeepsPendingEmpty(s, e, u);
    }
    if e.a.NoParent? {
      RootAloneHasNoParent(s, e.t);
    }
  }

  /** A lookup meets a node without a parent at the root only. */
  lemma RootAloneHasNoParent(s: State, t: nat)
    requires Clean(s) && t < |s.pcs| && s.pcs[t].Walk?
    ensures Valid(s.tree, s.pcs[t].cur) && (s.tree.nodes[s.pcs[t].cur].parent.Null? <==> s.pcs[t].cur == ROOT)
  {
    var cur := s.pcs[t].cur;
    assert ThreadInv(s.tree, s.pcs[t]);
    if cur != ROOT {
      assert Directory(s.tree, s.pcs, cur);
      assert Directory(s.tree, s.pcs, s.tree.home[cur].n);
      assert !ParentPending(s.pcs, cur);
    }
  }

  lemma StepKeepsClean(s: State, e: Event)
    requires Clean(s) && Enabled(s, e) && !e.a.ReleaseAgain?
    ensures Clean(Apply(s, e))
  {
    StepKeepsInv(s, e);
    StepBalanced(s, e);
    StepSettled(s, e);
  }

  // ---- how far a lookup has come ----

  /** The depth a path leads to from the root, which absorbs "..". */
  function Height(path: seq<string>): nat {
    if path == [] then 0
    else
      var h, c := Height(path[..|path| - 1]), path[|path| - 1];
      if c == "." then h else if c != ".." then h + 1 else if h == 0 then 0 else h - 1
  }

  /** Walking the path never asks for the parent of the root. */
  predicate StaysBelowRoot(path: seq<string>) {
    path == [] ||
    (StaysBelowRoot(path[..|path| - 1]) && (path[|path| - 1] == ".." ==> Height(path[..|path| - 1]) > 0))
  }

  lemma {:induction false} PrefixStaysBelowRoot(path: seq<string>, k: nat)
    requires StaysBelowRoot(path) && k <= |path|
    ensures StaysBelowRoot(path[..k])
  {
    if k == |path| {
      assert path[..k] == path;
    } else {
      PrefixStaysBelowRoot(path[..|path| - 1], k);
      assert path[..|path| - 1][..k] == path[..k];
    }
  }

  predicate HasPath(pc: Pc) {
    !pc.Idle? && !pc.Downgrade? && !pc.Done? && !pc.Climbed?
  }

  /** The node the rest of the path starts from. */
  function From(pc: Pc): NodeId
    requires HasPath(pc)
  {
    if pc.EnterRoot? then ROOT else if pc.UpWait? || pc.UpRelease? then pc.par else pc.cur
  }

  /** The lookup has consumed a beginning of its path that stays below the root, and stands where it leads. */
  ghost predicate OnCourse(tr: Tree, pc: Pc, wanted: seq<string>) {
    HasPath(pc) ==>
      && |pc.path| <= |wanted| && From(pc) < |tr.depth|
      && var k := |wanted| - |pc.path|;
         wanted[k..] == pc.path && StaysBelowRoot(wanted[..k]) && Height(wanted[..k]) == tr.depth[From(pc)]
  }

  ghost predicate AllOnCourse(s: State) {
    |s.wanted| == |s.pcs| && forall t :: 0 <= t < |s.pcs| ==> OnCourse(s.tree, s.pcs[t], s.wanted[t])
  }

  lemma OneToken(wanted: seq<string>, k: nat)
    requires k < |wanted|
    ensures wanted[k..][1..] == wanted[k + 1..]
    ensures StaysBelowRoot(wanted[..k + 1]) <==> StaysBelowRoot(wanted[..k]) &&
                                                 (wanted[k] == ".." ==> Height(wanted[..k]) > 0)
    ensures var h := Height(wanted[..k]);
            Height(wanted[..k + 1]) ==
            if wanted[k] == "." then h else if wanted[k] != ".." then h + 1 else if h == 0 then 0 else h - 1
  {
    assert wanted[..k + 1][..k] == wanted[..k];
  }

  /** A node lies one below the directory that lists it. */
  lemma DepthOfHome(s: State, n: NodeId)
    requires TreeInv(s.tree, s.pcs) && n < |s.tree.nodes| && s.tree.home[n].To?
    ensures s.tree.home[n].n < |s.tree.depth| && s.tree.depth[n] == s.tree.depth[s.tree.home[n].n] + 1
  {
    assert Directory(s.tree, s.pcs, n);
    assert Directory(s.tree, s.pcs, s.tree.home[n].n);
  }

  predicate Consumes(a: Action) { a.Dot? || a.Up? || a.DownUnlock? }

  /** Other steps leave the rest of the path and the node it starts from alone. */
  lemma KeepsPath(s: State, e: Event)
    requires Enabled(s, e) && !Consumes(e.a) && !e.a.Begin? && HasPath(NextPc(s, e))
    ensures HasPath(s.pcs[e.t]) && NextPc(s, e).path == s.pcs[e.t].path && From(NextPc(s, e)) == From(s.pcs[e.t])
  {
  }

  lemma ConsumesOne(s: State, e: Event)
    requires Enabled(s, e) && Consumes(e.a)
    ensures var pc, pc' := s.pcs[e.t], NextPc(s, e);
            HasPath(pc) && HasPath(pc') && From(pc) == pc.cur && pc.path != [] && pc'.path == pc.path[1..]
  {
  }

  lemma UpDepth(s: State, t: nat)
    requires Inv(s) && t < |s.pcs| && AtToken(s.tree, s.pcs[t]) && s.tree.nodes[s.pcs[t].cur].parent.To?
    ensures var par := s.tree.nodes[s.pcs[t].cur].parent.n;
            par < |s.tree.depth| && s.tree.depth[s.pcs[t].cur] == s.tree.depth[par] + 1
  {
    assert ThreadInv(s.tree, s.pcs[t]);
    ParentPointerIsRight(s, t);
    DepthOfHome(s, s.pcs[t].cur);
  }

  lemma DownDepth(s: State, t: nat)
    requires Inv(s) && t < |s.pcs| && s.pcs[t].DownRelease?
    ensures var pc := s.pcs[t];
            && pc.cur < |s.tree.depth| && pc.child < |s.tree.depth| && Named(pc.path)
            && s.tree.depth[pc.child] == s.tree.depth[pc.cur] + 1
  {
    assert ThreadInv(s.tree, s.pcs[t]);
    DepthOfHome(s, s.pcs[t].child);
  }

  /** The depths before and after a token. */
  lemma TokenDepth(s: State, e: Event)
    requires Inv(s) && Enabled(s, e) && Consumes(e.a)
    ensures var pc, n := s.pcs[e.t], From(NextPc(s, e));
            && pc.cur < |s.tree.depth| && n < |s.tree.depth|
            && var d, d', c := s.tree.depth[pc.cur], s.tree.depth[n], pc.path[0];
               if c == "." then d' == d else if c == ".." then d == d' + 1 else d' == d + 1
  {
    if e.a.Up? {
      UpDepth(s, e.t);
    } else if e.a.DownUnlock? {
      DownDepth(s, e.t);
    }
  }

  lemma TokenOnCourse(tr: Tree, pc: Pc, pc': Pc, wanted: seq<string>)
    requires HasPath(pc) && HasPath(pc') && pc.path != [] && pc'.path == pc.path[1..]
    requires OnCourse(tr, pc, wanted) && From(pc') < |tr.depth|
    requires var d, d', c := tr.depth[From(pc)], tr.depth[From(pc')], pc.path[0];
             if c == "." then d' == d else if c == ".." then d == d' + 1 else d' == d + 1
    ensures OnCourse(tr, pc', wanted)
  {
    OneToken(wanted, |wanted| - |pc.path|);
  }

  lemma ActingOnCourse(s: State, e: Event)
    requires Inv(s) && Enabled(s, e) && OnCourse(s.tree, s.pcs[e.t], s.wanted[e.t])
    ensures OnCourse(s.tree, NextPc(s, e), Apply(s, e).wanted[e.t])
  {
    if e.a.Begin? {
      assert e.a.given[0..] == e.a.given;
    } else if Consumes(e.a) {
      ConsumesOne(s, e);
      TokenDepth(s, e);
      TokenOnCourse(s.tree, s.pcs[e.t], NextPc(s, e), s.wanted[e.t]);
    } else if HasPath(NextPc(s, e)) {
      KeepsPath(s, e);
    }
  }

  lemma FromIsLive(tr: Tree, pc: Pc)
    requires Sizes(tr) && ThreadInv(tr, pc) && HasPath(pc)
    ensures Live(tr, From(pc))
  {
  }

  /** A step that changes the tree leaves the acting thread where it was. */
  lemma StoringStays(s: State, e: Event)
    requires Enabled(s, e) && HasPath(NextPc(s, e)) && NextTree(s, e) != s.tree
    ensures Standing(s.pcs[e.t]) && HasPath(s.pcs[e.t]) && From(NextPc(s, e)) == From(s.pcs[e.t])
  {
  }

  lemma StepOnCourse(s: State, e: Event)
    requires Inv(s) && AllOnCourse(s) && Enabled(s, e)
    ensures AllOnCourse(Apply(s, e))
  {
    var s' := Apply(s, e);
    assert ThreadInv(s.tree, s.pcs[e.t]);
    OwnDetachedHolds(s, e);
    StepEvolves(s, e);
    ActingOnCourse(s, e);
    forall t | 0 <= t < |s.pcs|
      ensures OnCourse(s'.tree, s'.pcs[t], s'.wanted[t])
    {
      assert ThreadInv(s.tree, s.pcs[t]);
      if HasPath(s'.pcs[t]) && s'.tree != s.tree {
        if t == e.t {
          StoringStays(s, e);
        }
        FromIsLive(s.tree, s.pcs[t]);
      }
    }
  }

  // ---- runs without a second release ----

  predicate NoSecondRelease(es: seq<Event>) {
    forall i :: 0 <= i < |es| ==> !es[i].a.ReleaseAgain?
  }

  lemma {:induction false} RunKeepsClean(s: State, es: seq<Event>)
    requires Clean(s) && AllOnCourse(s) && IsRun(s, es) && NoSecondRelease(es)
    ensures Clean(Exec(s, es)) && AllOnCourse(Exec(s, es))
    decreases es
  {
    if es != [] {
      StepKeepsClean(s, es[0]);
      StepOnCourse(s, es[0]);
      RunKeepsClean(Apply(s, es[0]), es[1..]);
    }
  }

  lemma InitClean(pool: nat, threads: nat)
    requires pool > 0
    ensures Clean(Init(pool, threads)) && AllOnCourse(Init(pool, threads))
  {
    var s := Init(pool, threads);
    InitInv(pool, threads);
    NoReaders(s.pcs, ROOT);
  }

  /**
    As long as no lock has been released twice, a list changes only while the acting thread holds the
    directory for writing and nobody else holds it in any mode.
   */
  lemma ListChangesAlone(s: State, e: Event, p: NodeId, u: nat)
    requires Clean(s) && Enabled(s, e) && p < |s.tree.kids| && u < |s.pcs| && u != e.t
    ensures p < |Apply(s, e).tree.kids|
    ensures Apply(s, e).tree.kids[p] != s.tree.kids[p] ==>
              HoldsWrite(s.pcs[e.t], p) && !HoldsRead(s.pcs[u], p) && !HoldsWrite(s.pcs[u], p)
  {
    ListChangesUnderWriteLock(s, e, p);
    if Apply(s, e).tree.kids[p] != s.tree.kids[p] {
      Exclusion(s, u, e.t, p);
    }
  }

  // ---- the exit at the root ----

  lemma ExitHere(s: State, t: nat)
    requires Clean(s) && t < |s.pcs| && OnCourse(s.tree, s.pcs[t], s.wanted[t]) && AtToken(s.tree, s.pcs[t])
    ensures var wanted := s.wanted[t];
            && |s.pcs[t].path| <= |wanted|
            && var k := |wanted| - |s.pcs[t].path|;
               && k < |wanted| && wanted[k] == s.pcs[t].path[0]
               && (Enabled(s, Event(t, NoParent)) <==> !StaysBelowRoot(wanted[..k + 1]))
  {
    var wanted := s.wanted[t];
    assert ThreadInv(s.tree, s.pcs[t]);
    OneToken(wanted, |wanted| - |s.pcs[t].path|);
    RootAloneHasNoParent(s, t);
    if s.pcs[t].cur != ROOT {
      DepthOfHome(s, s.pcs[t].cur);
    }
  }

  /**
    A lookup that has come to token k of its path leaves by the exit that gives its lock back twice if
    and only if the path up to and including that token climbs above the root.
   */
  lemma ExitIffPathClimbs(pool: nat, threads: nat, es: seq<Event>, t: nat)
    requires pool > 0 && IsRun(Init(pool, threads), es) && NoSecondRelease(es)
    requires var s := Exec(Init(pool, threads), es); t < |s.pcs| && AtToken(s.tree, s.pcs[t])
    ensures var s := Exec(Init(pool, threads), es);
            && |s.wanted| == |s.pcs| && |s.pcs[t].path| <= |s.wanted[t]|
            && var wanted, k := s.wanted[t], |s.wanted[t]| - |s.pcs[t].path|;
               && k < |wanted| && wanted[k] == s.pcs[t].path[0]
               && (Enabled(s, Event(t, NoParent)) <==> !StaysBelowRoot(wanted[..k + 1]))
  {
    InitClean(pool, threads);
    RunKeepsClean(Init(pool, threads), es);
    ExitHere(Exec(Init(pool, threads), es), t);
  }

  /** So a lookup whose path stays below the root never takes it. */
  lemma NoLookupClimbsAboveRoot(pool: nat, threads: nat, es: seq<Event>, t: nat)
    requires pool > 0 && IsRun(Init(pool, threads), es) && NoSecondRelease(es)
    requires t < |Exec(Init(pool, threads), es).wanted| && StaysBelowRoot(Exec(Init(pool, threads), es).wanted[t])
    ensures !Enabled(Exec(Init(pool, threads), es), Event(t, NoParent))
  {
    var s := Exec(Init(pool, threads), es);
    if t < |s.pcs| && AtToken(s.tree, s.pcs[t]) {
      ExitIffPathClimbs(pool, threads, es, t);
      PrefixStaysBelowRoot(s.wanted[t], |s.wanted[t]| - |s.pcs[t].path| + 1);
    }
  }

  /** The lock of n is negative although nobody holds it for writing. */
  ghost predicate Wedged(s: State, n: NodeId) {
    n < |s.words| && s.words[n] < 0 && NoWriter(s.pcs, n)
  }

  /** The event takes the lock of n. */
  predicate Locks(s: State, e: Event, n: NodeId)
    requires Enabled(s, e)
  {
    match e.a
    case LockRoot => n == ROOT
    case UpLock => n == s.pcs[e.t].par
    case UpgradeLock => n == s.pcs[e.t].cur
    case DownLock => n == s.pcs[e.t].child
    case _ => false
  }

  /** Without a writer a negative word only falls, and nobody gets in. */
  lemma NegativeWordFalls(s: State, e: Event, n: NodeId)
    requires Enabled(s, e) && Distinct(s.tree, s.pcs[e.t]) && n < |s.words| && Live(s.tree, n)
    requires s.words[n] < 0 && !HoldsWrite(s.pcs[e.t], n)
    ensures !Locks(s, e, n) && NextWords(s, e)[n] <= s.words[n] && !HoldsWrite(NextPc(s, e), n)
  {
  }

  /** A wedged lock stays wedged, and no step takes it. */
  lemma WedgedStays(s: State, e: Event, n: NodeId)
    requires Inv(s) && Enabled(s, e) && Live(s.tree, n) && Wedged(s, n)
    ensures !Locks(s, e, n) && Wedged(Apply(s, e), n)
  {
    ThreadDistinct(s, e.t);
    NegativeWordFalls(s, e, n);
    forall u | 0 <= u < |s.pcs|
      ensures !HoldsWrite(Apply(s, e).pcs[u], n)
    {
      assert !HoldsWrite(s.pcs[u], n);
    }
  }

  predicate Entered(es: seq<Event>) {
    exists i :: 0 <= i < |es| && es[i].a.LockRoot?
  }

  /** Once the root's lock is wedged, no lookup gets into the tree again, in any run. */
  lemma {:induction false} WedgedRootForever(s: State, es: seq<Event>)
    requires Inv(s) && Wedged(s, ROOT) && IsRun(s, es)
    ensures Wedged(Exec(s, es), ROOT) && !Entered(es)
    decreases es
  {
    if es != [] {
      WedgedStays(s, es[0], ROOT);
      StepKeepsInv(s, es[0]);
      WedgedRootForever(Apply(s, es[0]), es[1..]);
      forall i | 0 <= i < |es|
        ensures !es[i].a.LockRoot?
      {
        assert i > 0 ==> es[i] == es[1..][i - 1];
      }
    }
  }

  /** Somebody holds n in some mode. */
  predicate Held(s: State, n: NodeId) {
    exists u :: 0 <= u < |s.pcs| && (HoldsRead(s.pcs[u], n) || HoldsWrite(s.pcs[u], n))
  }

  /** The second release is one of the root's lock, and wedges it if and only if nobody holds it. */
  lemma SecondReleaseWedgesIffUnheld(s: State, e: Event)
    requires Clean(s) && Enabled(s, e) && e.a.ReleaseAgain?
    ensures s.pcs[e.t].cur == ROOT && (Wedged(Apply(s, e), ROOT) <==> !Held(s, ROOT))
  {
    var s' := Apply(s, e);
    assert Live(s.tree, ROOT) && WordOk(s.words, s.pcs, ROOT);
    NoReaders(s.pcs, ROOT);
    forall u | 0 <= u < |s.pcs|
      ensures HoldsWrite(s'.pcs[u], ROOT) == HoldsWrite(s.pcs[u], ROOT)
    {
    }
  }

  /** A lookup of ".." by thread 0, alone. */
  function ClimbingLookup(): seq<Event> {
    [Event(0, Begin([".."])), Event(0, LockRoot), Event(0, NoParent), Event(0, ReleaseAgain)]
  }

  lemma EntersRoot(s: State)
    requires |s.pcs| == |s.wanted| > 0 && Sizes(s.tree) && |s.words| == |s.tree.nodes| && s.pcs[0].Idle?
    requires s.words[ROOT] == 0
    ensures var e0, e1 := Event(0, Begin([".."])), Event(0, LockRoot);
            && Enabled(s, e0) && Enabled(Apply(s, e0), e1)
            && Apply(Apply(s, e0), e1) == State(s.tree, s.pcs[0 := Walk(ROOT, [".."])], s.words[ROOT := 1],
                                                s.wanted[0 := [".."]])
  {
  }

  lemma LeavesRoot(s: State)
    requires |s.pcs| == |s.wanted| > 0 && Sizes(s.tree) && |s.words| == |s.tree.nodes|
    requires s.pcs[0] == Walk(ROOT, [".."]) && s.tree.nodes[ROOT].dtype == DT_DIR && s.tree.nodes[ROOT].parent.Null?
    ensures var e2, e3 := Event(0, NoParent), Event(0, ReleaseAgain);
            && Enabled(s, e2) && Enabled(Apply(s, e2), e3)
            && Apply(Apply(s, e2), e3) == s.(pcs := s.pcs[0 := Idle], words := s.words[ROOT := s.words[ROOT] - 2])
  {
  }

  lemma ClimbOut(s: State)
    requires |s.pcs| == |s.wanted| > 0 && Sizes(s.tree) && |s.words| == |s.tree.nodes| && s.pcs[0].Idle?
    requires s.tree.nodes[ROOT].dtype == DT_DIR && s.tree.nodes[ROOT].parent.Null? && s.words[ROOT] == 0
    ensures IsRun(s, ClimbingLookup())
    ensures Exec(s, ClimbingLookup()) == s.(words := s.words[ROOT := -1], wanted := s.wanted[0 := [".."]])
  {
    var es := ClimbingLookup();
    assert es[1..] == [es[1], es[2], es[3]] && es[1..][1..] == [es[2], es[3]] && es[1..][1..][1..] == [es[3]];
    EntersRoot(s);
    LeavesRoot(Apply(Apply(s, es[0]), es[1]));
  }

  /** The path ".." alone: a single lookup of it shuts the cache for good. */
  lemma DotDotShutsTheCache(pool: nat, threads: nat, es: seq<Event>)
    requires pool > 0 && threads > 0
    ensures IsRun(Init(pool, threads), ClimbingLookup())
    ensures var s := Exec(Init(pool, threads), ClimbingLookup());
            s.tree == Init(pool, threads).tree && s.pcs == Init(pool, threads).pcs && (IsRun(s, es) ==> !Entered(es))
  {
    var s0 := Init(pool, threads);
    ClimbOut(s0);
    InitInv(pool, threads);
    RunKeepsInv(s0, ClimbingLookup());
    var s := Exec(s0, ClimbingLookup());
    if IsRun(s, es) {
      WedgedRootForever(s, es);
    }
  }
}
