/**
  Why concurrent lookups without ".." always end.  Here a reader also waits while a writer is
  announced, as rw_lock_read_lock makes it.
 */
module FsCacheProgress {
  import opened Common
  import opened FsCache
  import opened FsCacheLocks

  // ---- who waits for what ----

  /** rw_lock_upgrade_read_to_write has counted the thread in `writers_waiting` of n. */
  predicate Announced(pc: Pc, n: NodeId) { pc.Upgrading? && pc.cur == n }

  predicate MayRead(s: State, n: NodeId) {
    Readable(s, n) && forall u :: 0 <= u < |s.pcs| ==> !Announced(s.pcs[u], n)
  }

  predicate Waits(pc: Pc) { pc.EnterRoot? || pc.UpWait? || pc.DownWait? || pc.Upgrading? }

  /** The node whose lock the thread waits for. */
  function Target(pc: Pc): NodeId
    requires Waits(pc)
  {
    if pc.EnterRoot? then ROOT else if pc.UpWait? then pc.par else if pc.DownWait? then pc.child else pc.cur
  }

  predicate Blocked(s: State, t: nat)
    requires t < |s.pcs|
  {
    var pc := s.pcs[t];
    Waits(pc) && if pc.Upgrading? then !(pc.cur < |s.words| && s.words[pc.cur] == 0) else !MayRead(s, Target(pc))
  }

  lemma WorksOn(s: State, t: nat) returns (e: Event)
    requires Inv(s) && t < |s.pcs| && !s.pcs[t].Idle? && !Waits(s.pcs[t])
    ensures e.t == t && Enabled(s, e) && !e.a.Begin?
  {
    var pc := s.pcs[t];
    assert ThreadInv(s.tree, pc);
    var a := match pc
      case UpRelease(_, _, _) => UpUnlock
      case Scan(_, path, pos, _, _) =>
        if pos.Null? then ScanMiss else if s.tree.nodes[pos.n].name == path[0] then ScanHit else ScanNext
      case DownRelease(_, _, _, _) => DownUnlock
      case Alloc(_, _) => AllocFail
      case Wipe(_, _, _) => Clear
      case Load(_, _, _) => LoadFail
      case Link1(_, _, _) => StoreNext
      case Link2(_, _, _, _) => StorePrev
      case Link3(_, _, _) => StoreFirst
      case Link4(_, _, _) => StoreParent
      case Downgrade(_) => DoDowngrade
      case Done(_) => Release
      case Climbed(_) => ReleaseAgain
      case _ => Stop;
    e := Event(t, a);
  }

  /** The step of a thread that is not blocked. */
  lemma CanMove(s: State, t: nat) returns (e: Event)
    requires Inv(s) && t < |s.pcs| && !s.pcs[t].Idle? && !Blocked(s, t)
    ensures e.t == t && Enabled(s, e) && !e.a.Begin?
  {
    var pc := s.pcs[t];
    assert ThreadInv(s.tree, pc);
    if Waits(pc) {
      e := Event(t, if pc.EnterRoot? then LockRoot else if pc.UpWait? then UpLock
                    else if pc.DownWait? then DownLock else UpgradeLock);
    } else {
      e := WorksOn(s, t);
    }
  }

  // ---- lookups without ".." ----

  predicate NeverUp(pc: Pc) {
    && !pc.UpWait? && !pc.UpRelease? && !pc.Climbed?
    && (HasPath(pc) ==> ".." !in pc.path)
  }

  ghost predicate NobodyUp(s: State) {
    forall t :: 0 <= t < |s.pcs| ==> NeverUp(s.pcs[t])
  }

  predicate PlainPaths(es: seq<Event>) {
    forall i :: 0 <= i < |es| && es[i].a.Begin? ==> ".." !in es[i].a.given
  }

  lemma StepNobodyUp(s: State, e: Event)
    requires NobodyUp(s) && Enabled(s, e) && (e.a.Begin? ==> ".." !in e.a.given)
    ensures NobodyUp(Apply(s, e)) && !e.a.ReleaseAgain?
  {
    assert NeverUp(s.pcs[e.t]);
    assert NeverUp(NextPc(s, e));
  }

  lemma {:induction false} RunNobodyUp(s: State, es: seq<Event>)
    requires Clean(s) && NobodyUp(s) && IsRun(s, es) && PlainPaths(es)
    ensures Clean(Exec(s, es)) && NobodyUp(Exec(s, es))
    decreases es
  {
    if es != [] {
      StepNobodyUp(s, es[0]);
      StepKeepsClean(s, es[0]);
      RunNobodyUp(Apply(s, es[0]), es[1..]);
    }
  }

  /** How deep the lock lies that the thread waits for. */
  ghost function WaitDepth(s: State, t: nat): int
    requires t < |s.pcs|
  {
    if Waits(s.pcs[t]) && Target(s.pcs[t]) < |s.tree.depth| then s.tree.depth[Target(s.pcs[t])] else -1
  }

  /** A thread that holds the lock another one waits for is not blocked, or waits one level deeper. */
  lemma HolderIsDeeper(s: State, u: nat, n: NodeId)
    requires Clean(s) && u < |s.pcs| && NeverUp(s.pcs[u]) && n < |s.tree.depth|
    requires HoldsRead(s.pcs[u], n) || HoldsWrite(s.pcs[u], n)
    ensures !s.pcs[u].Idle? && (Blocked(s, u) ==> WaitDepth(s, u) > s.tree.depth[n])
  {
    assert ThreadInv(s.tree, s.pcs[u]);
    if s.pcs[u].DownWait? {
      DepthOfHome(s, s.pcs[u].child);
    }
  }

  /** A lock that is not free is held by somebody. */
  lemma Holder(s: State, n: NodeId) returns (u: nat)
    requires Inv(s) && Balanced(s) && n < |s.words| && Live(s.tree, n) && s.words[n] != 0
    ensures u < |s.pcs| && (HoldsRead(s.pcs[u], n) || HoldsWrite(s.pcs[u], n))
  {
    assert WordOk(s.words, s.pcs, n);
    NoReaders(s.pcs, n);
    u :| u < |s.pcs| && (HoldsRead(s.pcs[u], n) || HoldsWrite(s.pcs[u], n));
  }

  /** Behind a blocked thread there is one that can move, or one that waits deeper. */
  lemma BehindBlocked(s: State, t: nat) returns (u: nat)
    requires Clean(s) && NobodyUp(s) && t < |s.pcs| && Blocked(s, t)
    ensures u < |s.pcs| && !s.pcs[u].Idle? && (Blocked(s, u) ==> WaitDepth(s, u) > WaitDepth(s, t))
  {
    var pc := s.pcs[t];
    assert ThreadInv(s.tree, pc) && NeverUp(pc);
    var n := Target(pc);
    assert Live(s.tree, n) && n < |s.words|;
    if s.words[n] != 0 {
      u := Holder(s, n);
      assert NeverUp(s.pcs[u]);
      HolderIsDeeper(s, u, n);
    } else {
      u :| u < |s.pcs| && Announced(s.pcs[u], n);
    }
  }

  lemma {:induction false} Deepest(s: State, k: nat) returns (t: nat)
    requires 0 < k <= |s.pcs|
    ensures t < k && forall u :: 0 <= u < k ==> WaitDepth(s, u) <= WaitDepth(s, t)
  {
    if k == 1 {
      t := 0;
    } else {
      t := Deepest(s, k - 1);
      if WaitDepth(s, t) < WaitDepth(s, k - 1) {
        t := k - 1;
      }
    }
  }

  /** Among lookups without ".." somebody can always move. */
  lemma SomebodyCanMove(s: State, a: nat) returns (e: Event)
    requires Clean(s) && NobodyUp(s) && a < |s.pcs| && !s.pcs[a].Idle?
    ensures Enabled(s, e) && !e.a.Begin? && !Blocked(s, e.t)
  {
    var t := a;
    if Blocked(s, a) {
      t := Deepest(s, |s.pcs|);
      if s.pcs[t].Idle? || !Waits(s.pcs[t]) {
        t := a;
      }
      if Blocked(s, t) {
        t := BehindBlocked(s, t);
      }
    }
    e := CanMove(s, t);
  }

  /** In every run of lookups whose paths have no "..", as long as one is under way one can move. */
  lemma PlainLookupsAreNeverStuck(pool: nat, threads: nat, es: seq<Event>, a: nat)
    requires pool > 0 && IsRun(Init(pool, threads), es) && PlainPaths(es)
    requires var s := Exec(Init(pool, threads), es); a < |s.pcs| && !s.pcs[a].Idle?
    ensures var s := Exec(Init(pool, threads), es); exists e :: Enabled(s, e) && !e.a.Begin? && !Blocked(s, e.t)
  {
    InitClean(pool, threads);
    RunNobodyUp(Init(pool, threads), es);
    var e := SomebodyCanMove(Exec(Init(pool, threads), es), a);
  }

  // ---- runs in which readers wait for announced writers ----

  /** No step of the run is one of a blocked thread. */
  predicate Unblocked(s: State, es: seq<Event>)
    requires IsRun(s, es)
    decreases es
  {
    es == [] || (!Blocked(s, es[0].t) && Unblocked(Apply(s, es[0]), es[1..]))
  }

  predicate CodeRun(s: State, es: seq<Event>) {
    IsRun(s, es) && Unblocked(s, es)
  }

  lemma {:induction false} UnblockedSnoc(s: State, es: seq<Event>, e: Event)
    requires CodeRun(s, es) && Enabled(Exec(s, es), e) && !Blocked(Exec(s, es), e.t)
    ensures CodeRun(s, es + [e])
    decreases es
  {
    if es == [] {
      assert [e][1..] == [] && [] + [e] == [e];
    } else {
      assert (es + [e])[1..] == es[1..] + [e];
      UnblockedSnoc(Apply(s, es[0]), es[1..], e);
    }
  }

  // ---- lookups end ----

  /** How far a child is from the end of a list. */
  function Left(kids: seq<NodeId>, n: NodeId): (k: nat)
    ensures k <= |kids|
  {
    if kids == [] then 0 else if kids[0] == n then |kids| else Left(kids[1..], n)
  }

  lemma {:induction false} LeftAt(kids: seq<NodeId>, i: nat)
    requires i < |kids| && forall j :: 0 <= j < i ==> kids[j] != kids[i]
    ensures Left(kids, kids[i]) == |kids| - i
  {
    if i > 0 {
      assert kids[1..][i - 1] == kids[i];
      LeftAt(kids[1..], i - 1);
    }
  }

  /** Steps enough for n tokens in directories of up to `size` children. */
  function Worth(n: nat, size: nat): nat {
    if n == 0 then 0 else Worth(n - 1, size) + 2 * size + 20
  }

  function ScanLeft(tr: Tree, pc: Pc): nat
    requires pc.Scan?
  {
    if pc.pos.To? && pc.cur < |tr.kids| then Left(tr.kids[pc.cur], pc.pos.n) else 0
  }

  /** A bound for the steps a lookup still takes: the tokens left, and the stage of the present one. */
  function Rank(tr: Tree, pc: Pc): nat {
    var size := |tr.nodes|;
    match pc
    case Idle => 0
    case Done(_) => 1
    case Climbed(_) => 1
    case Downgrade(_) => 2
    case EnterRoot(path) => Worth(|path|, size) + 3
    case Walk(_, path) => Worth(|path|, size) + 2
    case UpWait(_, _, path) => Worth(|path|, size) + 4
    case UpRelease(_, _, path) => Worth(|path|, size) + 3
    case _ => TokenRank(tr, pc)
  }

  function TokenRank(tr: Tree, pc: Pc): nat
    requires Standing(pc) && !pc.Done? && !pc.Climbed? && !pc.Downgrade?
  {
    var size := |tr.nodes|;
    (if pc.path == [] then 0 else Worth(|pc.path| - 1, size)) +
    match pc
    case Scan(_, _, _, _, wr) => ScanLeft(tr, pc) + if wr then 11 else 13 + size
    case Upgrading(_, _) => 12 + size
    case Alloc(_, _) => 10
    case Wipe(_, _, _) => 9
    case Load(_, _, _) => 8
    case Link1(_, _, _) => 7
    case Link2(_, _, _, _) => 6
    case Link3(_, _, _) => 5
    case Link4(_, _, _) => 4
    case DownWait(_, _, _, _) => 4
    case _ => 3
  }

  /** Different numbers below size are at most size many. */
  lemma {:induction false} DistinctFit(kids: seq<NodeId>, size: nat)
    requires forall i :: 0 <= i < |kids| ==> kids[i] < size
    requires forall i, j :: 0 <= i < j < |kids| ==> kids[i] != kids[j]
    ensures |kids| <= size
    decreases size
  {
    if kids != [] {
      assert kids[0] < size;
      if i :| 0 <= i < |kids| && kids[i] == size - 1 {
        DistinctFit(kids[..i] + kids[i + 1..], size - 1);
      } else {
        DistinctFit(kids, size - 1);
      }
    }
  }

  lemma ListFits(s: State, p: NodeId)
    requires TreeInv(s.tree, s.pcs) && p < |s.tree.nodes|
    ensures |s.tree.kids[p]| <= |s.tree.nodes|
  {
    assert Directory(s.tree, s.pcs, p);
    DistinctFit(s.tree.kids[p], |s.tree.nodes|);
  }

  lemma SameNodes(s: State, e: Event)
    requires Enabled(s, e)
    ensures |NextTree(s, e).nodes| == |s.tree.nodes|
  {
  }

  /** The next child is nearer to the end. */
  lemma NextIsNearer(tr: Tree, pc: Pc, i: nat)
    requires Sizes(tr) && AtChild(tr, pc) && IsAt(tr, pc, i) && pc.cur < |tr.nodes|
    requires ForwardChain(tr, pc.cur) && Siblings(tr, pc.cur)
    ensures ScanLeft(tr, Scan(pc.cur, pc.path, tr.nodes[pc.pos.n].next, pc.at + 1, pc.wr)) < ScanLeft(tr, pc)
  {
    var kids := tr.kids[pc.cur];
    assert tr.nodes[kids[i]].next == Nth(kids, i + 1);
    LeftAt(kids, i);
    if i + 1 < |kids| {
      LeftAt(kids, i + 1);
    }
  }

  lemma ScanSinks(s: State, e: Event)
    requires Inv(s) && Enabled(s, e) && e.a.ScanNext?
    ensures ScanLeft(s.tree, NextPc(s, e)) < ScanLeft(s.tree, s.pcs[e.t])
  {
    var pc := s.pcs[e.t];
    CurrentDirectory(s, e.t);
    assert ThreadInv(s.tree, pc) && Directory(s.tree, s.pcs, pc.pos.n);
    var i := ScanIsAt(s.tree, pc);
    NextIsNearer(s.tree, pc, i);
  }

  lemma ScanStartRank(s: State, e: Event)
    requires Inv(s) && Enabled(s, e) && (e.a.StartScan? || e.a.UpgradeLock?)
    ensures ScanLeft(s.tree, NextPc(s, e)) <= |s.tree.nodes|
  {
    CurrentDirectory(s, e.t);
    ListFits(s, s.pcs[e.t].cur);
  }

  lemma OtherStepSinks(s: State, e: Event)
    requires Enabled(s, e) && !e.a.Begin? && !e.a.ScanNext? && !e.a.StartScan? && !e.a.UpgradeLock?
    ensures Rank(NextTree(s, e), NextPc(s, e)) < Rank(s.tree, s.pcs[e.t])
  {
    SameNodes(s, e);
  }

  /** Every step but Begin brings the acting lookup nearer to its end. */
  lemma StepSinks(s: State, e: Event)
    requires Inv(s) && Enabled(s, e) && !e.a.Begin?
    ensures Rank(NextTree(s, e), NextPc(s, e)) < Rank(s.tree, s.pcs[e.t])
  {
    if e.a.ScanNext? {
      ScanSinks(s, e);
    } else if e.a.StartScan? || e.a.UpgradeLock? {
      ScanStartRank(s, e);
    } else {
      OtherStepSinks(s, e);
    }
  }

  /** No step takes another lookup further from its end. */
  lemma StepKeepsRank(s: State, e: Event, u: nat)
    requires Inv(s) && Enabled(s, e) && u < |s.pcs| && u != e.t
    ensures Rank(NextTree(s, e), s.pcs[u]) == Rank(s.tree, s.pcs[u])
  {
    SameNodes(s, e);
    var pc := s.pcs[u];
    if pc.Scan? {
      assert ThreadInv(s.tree, pc) && Apart(s.pcs[e.t], pc);
      ListChangesUnderWriteLock(s, e, pc.cur);
      assert ScanLeft(NextTree(s, e), pc) == ScanLeft(s.tree, pc) by {
        var kids, kids' := s.tree.kids[pc.cur], NextTree(s, e).kids[pc.cur];
        assert kids' != kids ==> kids'[1..] == kids;
      }
    }
  }

  function TotalRank(tr: Tree, pcs: seq<Pc>): nat {
    if pcs == [] then 0 else Rank(tr, pcs[0]) + TotalRank(tr, pcs[1..])
  }

  lemma {:induction false} TotalSinks(tr: Tree, tr': Tree, pcs: seq<Pc>, pcs': seq<Pc>)
    requires |pcs'| == |pcs| && forall u :: 0 <= u < |pcs| ==> Rank(tr', pcs'[u]) <= Rank(tr, pcs[u])
    ensures TotalRank(tr', pcs') <= TotalRank(tr, pcs)
    ensures (exists u :: 0 <= u < |pcs| && Rank(tr', pcs'[u]) < Rank(tr, pcs[u])) ==>
              TotalRank(tr', pcs') < TotalRank(tr, pcs)
  {
    if pcs != [] {
      TotalSinks(tr, tr', pcs[1..], pcs'[1..]);
      if u :| 0 < u < |pcs| && Rank(tr', pcs'[u]) < Rank(tr, pcs[u]) {
        assert pcs[1..][u - 1] == pcs[u] && pcs'[1..][u - 1] == pcs'[u];
      }
    }
  }

  lemma StepSinksTotal(s: State, e: Event)
    requires Inv(s) && Enabled(s, e) && !e.a.Begin?
    ensures TotalRank(Apply(s, e).tree, Apply(s, e).pcs) < TotalRank(s.tree, s.pcs)
  {
    var s' := Apply(s, e);
    StepSinks(s, e);
    forall u | 0 <= u < |s.pcs|
      ensures Rank(s'.tree, s'.pcs[u]) <= Rank(s.tree, s.pcs[u])
    {
      if u != e.t {
        StepKeepsRank(s, e, u);
      }
    }
    assert Rank(s'.tree, s'.pcs[e.t]) < Rank(s.tree, s.pcs[e.t]);
    TotalSinks(s.tree, s'.tree, s.pcs, s'.pcs);
  }

  predicate NoBegin(es: seq<Event>) {
    forall i :: 0 <= i < |es| ==> !es[i].a.Begin?
  }

  /** No matter how they are scheduled, and whatever their paths, lookups under way take boundedly many steps. */
  lemma {:induction false} BoundedSteps(s: State, es: seq<Event>)
    requires Inv(s) && IsRun(s, es) && NoBegin(es)
    ensures |es| <= TotalRank(s.tree, s.pcs)
    decreases es
  {
    if es != [] {
      StepKeepsInv(s, es[0]);
      StepSinksTotal(s, es[0]);
      BoundedSteps(Apply(s, es[0]), es[1..]);
    }
  }

  ghost predicate AllIdle(s: State) {
    forall t :: 0 <= t < |s.pcs| ==> s.pcs[t].Idle?
  }

  lemma {:induction false} RunOut(s: State) returns (es: seq<Event>)
    requires Clean(s) && NobodyUp(s)
    ensures CodeRun(s, es) && NoBegin(es) && AllIdle(Exec(s, es))
    decreases TotalRank(s.tree, s.pcs)
  {
    if a :| 0 <= a < |s.pcs| && !s.pcs[a].Idle? {
      var e := SomebodyCanMove(s, a);
      StepNobodyUp(s, e);
      StepKeepsClean(s, e);
      StepSinksTotal(s, e);
      var rest := RunOut(Apply(s, e));
      es := [e] + rest;
      assert es[1..] == rest;
    } else {
      es := [];
    }
  }

  /**
    From every state that lookups without ".." reach, a run of the code in which no lookup begins ends
    them all; and every such run that cannot go on has ended them all, after boundedly many steps.
   */
  lemma PlainLookupsEnd(pool: nat, threads: nat, es: seq<Event>) returns (more: seq<Event>)
    requires pool > 0 && IsRun(Init(pool, threads), es) && PlainPaths(es)
    ensures var s := Exec(Init(pool, threads), es);
            CodeRun(s, more) && NoBegin(more) && AllIdle(Exec(s, more))
    ensures var s := Exec(Init(pool, threads), es);
            forall on :: CodeRun(s, on) && NoBegin(on) ==>
              && |on| <= TotalRank(s.tree, s.pcs)
              && (AllIdle(Exec(s, on)) ||
                  exists e :: Enabled(Exec(s, on), e) && !e.a.Begin? && !Blocked(Exec(s, on), e.t))
  {
    var s := Exec(Init(pool, threads), es);
    InitClean(pool, threads);
    RunNobodyUp(Init(pool, threads), es);
    more := RunOut(s);
    forall on | CodeRun(s, on) && NoBegin(on)
      ensures |on| <= TotalRank(s.tree, s.pcs)
      ensures AllIdle(Exec(s, on)) ||
              exists e :: Enabled(Exec(s, on), e) && !e.a.Begin? && !Blocked(Exec(s, on), e.t)
    {
      BoundedSteps(s, on);
      RunNobodyUp(s, on);
      if a :| 0 <= a < |Exec(s, on).pcs| && !Exec(s, on).pcs[a].Idle? {
        var e := SomebodyCanMove(Exec(s, on), a);
      }
    }
  }
}
