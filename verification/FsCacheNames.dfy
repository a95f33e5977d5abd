/**
  Which node a lookup of src/vfs/fscache.c stands on while other lookups run beside it.

  The names on the way down from the root to a node are the node's own path.  In every interleaving,
  also in those that release a lock twice, a lookup that has consumed a beginning of the path it was
  given stands on the node whose own path is that beginning with "." and ".." resolved.  A node in use
  has such a path or is on its way into the tree, and has the type it was loaded with.
 */
module FsCacheNames {
  import opened Common
  import opened FsCache
  import opened FsCacheLocks
  import P = PathNormalise

  /** The names on the way from the root down to n, one directory after the other. */
  ghost predicate Spells(tr: Tree, names: seq<string>, n: NodeId)
    decreases |names|
  {
    && n < |tr.nodes| && n < |tr.home|
    && if names == [] then n == ROOT
       else
         && tr.home[n].To? && tr.nodes[n].name == names[|names| - 1]
         && Spells(tr, names[..|names| - 1], tr.home[n].n)
  }

  lemma OneChildOfAName(tr: Tree, pcs: seq<Pc>, n: NodeId, m: NodeId)
    requires TreeInv(tr, pcs) && n < |tr.nodes| && m < |tr.nodes|
    requires tr.home[n].To? && tr.home[n] == tr.home[m] && tr.nodes[n].name == tr.nodes[m].name
    ensures n == m
  {
    assert Directory(tr, pcs, n) && Directory(tr, pcs, m);
    var p := tr.home[n].n;
    assert Directory(tr, pcs, p);
    var i :| 0 <= i < |tr.kids[p]| && tr.kids[p][i] == n;
    var j :| 0 <= j < |tr.kids[p]| && tr.kids[p][j] == m;
  }

  /** No two nodes have the same path. */
  lemma {:induction false} SpellsOneNode(tr: Tree, pcs: seq<Pc>, names: seq<string>, n: NodeId, m: NodeId)
    requires TreeInv(tr, pcs) && Spells(tr, names, n) && Spells(tr, names, m)
    ensures n == m
    decreases |names|
  {
    if names != [] {
      SpellsOneNode(tr, pcs, names[..|names| - 1], tr.home[n].n, tr.home[m].n);
      OneChildOfAName(tr, pcs, n, m);
    }
  }

  /** No node has two paths. */
  lemma {:induction false} SpellsOneWay(tr: Tree, names: seq<string>, names': seq<string>, n: NodeId)
    requires Sizes(tr) && Spells(tr, names, n) && Spells(tr, names', n)
    ensures names == names'
    decreases |names|
  {
    if names != [] && names' != [] {
      SpellsOneWay(tr, names[..|names| - 1], names'[..|names'| - 1], tr.home[n].n);
      assert names == names[..|names| - 1] + [names[|names| - 1]];
      assert names' == names'[..|names'| - 1] + [names'[|names'| - 1]];
    }
  }

  /** Linking more nodes changes the path of none that is in the tree. */
  lemma {:induction false} SpellsKept(tr: Tree, pcs: seq<Pc>, tr': Tree, names: seq<string>, n: NodeId)
    requires TreeInv(tr, pcs) && Sizes(tr') && Evolves(tr, tr') && Spells(tr, names, n)
    ensures Spells(tr', names, n)
    decreases |names|
  {
    assert Live(tr, n);
    if names != [] {
      SpellsKept(tr, pcs, tr', names[..|names| - 1], tr.home[n].n);
    }
  }

  // ---- one token of the path ----

  /** The path that the first k tokens of `wanted` lead to from the root. */
  function Meaning(wanted: seq<string>, k: nat): seq<string>
    requires k <= |wanted|
  {
    P.Resolve([], wanted[..k])
  }

  lemma MeaningOneMore(wanted: seq<string>, k: nat)
    requires k < |wanted|
    ensures Meaning(wanted, k + 1) == P.Push(Meaning(wanted, k), wanted[k]) && wanted[k..][1..] == wanted[k + 1..]
  {
    assert wanted[..k + 1] == wanted[..k] + [wanted[k]];
    P.ResolveAppend([], wanted[..k], [wanted[k]]);
    P.OneComponent(Meaning(wanted, k), wanted[k]);
  }

  // ---- where a thread stands ----

  /** n is where some beginning of the path leads. */
  ghost predicate OnTheWay(tr: Tree, wanted: seq<string>, n: NodeId) {
    exists k :: 0 <= k <= |wanted| && Spells(tr, Meaning(wanted, k), n)
  }

  /** pc.path is what is left of `wanted`, and pc stands where the part before it leads. */
  ghost predicate StandsRight(tr: Tree, pc: Pc, wanted: seq<string>)
    requires HasPath(pc)
  {
    && |pc.path| <= |wanted| && wanted[|wanted| - |pc.path|..] == pc.path
    && Spells(tr, Meaning(wanted, |wanted| - |pc.path|), From(pc))
  }

  predicate GoingDown(pc: Pc) { pc.DownWait? || pc.DownRelease? || pc.Link4? }

  ghost predicate Placed(tr: Tree, pc: Pc, wanted: seq<string>) {
    && (HasPath(pc) ==> StandsRight(tr, pc, wanted))
    && (GoingDown(pc) ==> pc.path != [] && pc.child < |tr.nodes| && tr.nodes[pc.child].name == pc.path[0])
    && (!HasPath(pc) && !pc.Idle? ==> OnTheWay(tr, wanted, pc.cur))
  }

  ghost predicate AllPlaced(s: State) {
    |s.wanted| == |s.pcs| && forall t :: 0 <= t < |s.pcs| ==> Placed(s.tree, s.pcs[t], s.wanted[t])
  }

  /** A step down spells one name more, a step up one name less. */
  lemma OneStep(s: State, e: Event, names: seq<string>)
    requires Inv(s) && Enabled(s, e) && Consumes(e.a) && Spells(s.tree, names, s.pcs[e.t].cur)
    requires Placed(s.tree, s.pcs[e.t], s.wanted[e.t])
    ensures Spells(s.tree, P.Push(names, s.pcs[e.t].path[0]), From(NextPc(s, e)))
  {
    var pc := s.pcs[e.t];
    assert ThreadInv(s.tree, pc);
    if e.a.Up? {
      ParentPointerIsRight(s, e.t);
    } else if e.a.DownUnlock? {
      var names' := names + [pc.path[0]];
      assert names'[..|names'| - 1] == names;
    }
  }

  lemma TokenStandsRight(s: State, e: Event)
    requires Inv(s) && Enabled(s, e) && Consumes(e.a) && Placed(s.tree, s.pcs[e.t], s.wanted[e.t])
    ensures HasPath(NextPc(s, e)) && StandsRight(s.tree, NextPc(s, e), s.wanted[e.t])
  {
    var pc, wanted := s.pcs[e.t], s.wanted[e.t];
    ConsumesOne(s, e);
    var k := |wanted| - |pc.path|;
    assert wanted[k] == pc.path[0];
    OneStep(s, e, Meaning(wanted, k));
    MeaningOneMore(wanted, k);
  }

  lemma ActingStandsRight(s: State, e: Event)
    requires Inv(s) && Enabled(s, e) && Placed(s.tree, s.pcs[e.t], s.wanted[e.t]) && HasPath(NextPc(s, e))
    ensures StandsRight(s.tree, NextPc(s, e), Apply(s, e).wanted[e.t])
  {
    if e.a.Begin? {
      assert e.a.given[0..] == e.a.given && e.a.given[..0] == [];
    } else if Consumes(e.a) {
      TokenStandsRight(s, e);
    } else {
      KeepsPath(s, e);
    }
  }

  /** A lookup ends on the node it stood on. */
  lemma ActingEnds(s: State, e: Event)
    requires Enabled(s, e) && Placed(s.tree, s.pcs[e.t], s.wanted[e.t])
    requires !HasPath(NextPc(s, e)) && !NextPc(s, e).Idle?
    ensures OnTheWay(s.tree, Apply(s, e).wanted[e.t], NextPc(s, e).cur)
  {
    var pc, wanted := s.pcs[e.t], s.wanted[e.t];
    if HasPath(pc) {
      assert Spells(s.tree, Meaning(wanted, |wanted| - |pc.path|), NextPc(s, e).cur);
    }
  }

  /** The child that is entered next has the name that is wanted. */
  lemma ActingGoesDown(s: State, e: Event)
    requires Inv(s) && Enabled(s, e) && Placed(s.tree, s.pcs[e.t], s.wanted[e.t]) && GoingDown(NextPc(s, e))
    ensures var pc, pc' := s.pcs[e.t], NextPc(s, e);
            && pc'.path == pc.path && pc.path != [] && pc'.child < |s.tree.nodes|
            && s.tree.nodes[pc'.child].name == pc.path[0] == NextTree(s, e).nodes[pc'.child].name
  {
    var pc := s.pcs[e.t];
    if e.a.StoreFirst? {
      assert ThreadInv(s.tree, pc) && InsertInv(s.tree, pc);
    } else {
      assert e.a.ScanHit? || e.a.DownLock? || e.a.StoreParent?;
    }
  }

  lemma OnTheWayKept(tr: Tree, pcs: seq<Pc>, tr': Tree, wanted: seq<string>, n: NodeId)
    requires TreeInv(tr, pcs) && Sizes(tr') && Evolves(tr, tr') && OnTheWay(tr, wanted, n)
    ensures OnTheWay(tr', wanted, n)
  {
    var k :| 0 <= k <= |wanted| && Spells(tr, Meaning(wanted, k), n);
    SpellsKept(tr, pcs, tr', Meaning(wanted, k), n);
  }

  lemma StandsRightKept(tr: Tree, pcs: seq<Pc>, tr': Tree, pc: Pc, wanted: seq<string>)
    requires TreeInv(tr, pcs) && Sizes(tr') && Evolves(tr, tr') && HasPath(pc) && StandsRight(tr, pc, wanted)
    ensures StandsRight(tr', pc, wanted)
  {
    SpellsKept(tr, pcs, tr', Meaning(wanted, |wanted| - |pc.path|), From(pc));
  }

  lemma ActingPlaced(s: State, e: Event)
    requires Inv(s) && Enabled(s, e) && Placed(s.tree, s.pcs[e.t], s.wanted[e.t])
    requires Sizes(NextTree(s, e)) && Evolves(s.tree, NextTree(s, e))
    ensures Placed(NextTree(s, e), NextPc(s, e), Apply(s, e).wanted[e.t])
  {
    var pc', tr', wanted := NextPc(s, e), NextTree(s, e), Apply(s, e).wanted[e.t];
    if HasPath(pc') {
      ActingStandsRight(s, e);
      StandsRightKept(s.tree, s.pcs, tr', pc', wanted);
    } else if !pc'.Idle? {
      ActingEnds(s, e);
      OnTheWayKept(s.tree, s.pcs, tr', wanted, pc'.cur);
    }
    if GoingDown(pc') {
      ActingGoesDown(s, e);
    }
  }

  lemma OtherPlaced(s: State, t: nat, tr': Tree)
    requires Inv(s) && t < |s.pcs| && Placed(s.tree, s.pcs[t], s.wanted[t])
    requires Sizes(tr') && Evolves(s.tree, tr')
    ensures Placed(tr', s.pcs[t], s.wanted[t])
  {
    var pc := s.pcs[t];
    assert ThreadInv(s.tree, pc);
    if HasPath(pc) {
      StandsRightKept(s.tree, s.pcs, tr', pc, s.wanted[t]);
    } else if !pc.Idle? {
      OnTheWayKept(s.tree, s.pcs, tr', s.wanted[t], pc.cur);
    }
    if GoingDown(pc) {
      assert Live(s.tree, pc.child);
    }
  }

  lemma StepPlaced(s: State, e: Event)
    requires Inv(s) && AllPlaced(s) && Enabled(s, e)
    ensures AllPlaced(Apply(s, e))
  {
    var s' := Apply(s, e);
    assert ThreadInv(s.tree, s.pcs[e.t]);
    OwnDetachedHolds(s, e);
    StepEvolves(s, e);
    ActingPlaced(s, e);
    forall t | 0 <= t < |s.pcs|
      ensures Placed(s'.tree, s'.pcs[t], s'.wanted[t])
    {
      if t != e.t {
        OtherPlaced(s, t, s'.tree);
      }
    }
  }

  lemma {:induction false} RunPlaced(s: State, es: seq<Event>)
    requires Inv(s) && AllPlaced(s) && IsRun(s, es)
    ensures Inv(Exec(s, es)) && AllPlaced(Exec(s, es))
    decreases es
  {
    if es != [] {
      StepKeepsInv(s, es[0]);
      StepPlaced(s, es[0]);
      RunPlaced(Apply(s, es[0]), es[1..]);
    }
  }

  // ---- the theorems, over the events of the run ----

  /** The path of the last lookup that thread t began. */
  function Given(es: seq<Event>, t: nat): seq<string> {
    if es == [] then []
    else
      var e := es[|es| - 1];
      if e.t == t && e.a.Begin? then e.a.given else Given(es[..|es| - 1], t)
  }

  lemma {:induction false} RunUnsnoc(s: State, es: seq<Event>)
    requires IsRun(s, es) && es != []
    ensures var before := es[..|es| - 1];
            && IsRun(s, before) && Enabled(Exec(s, before), es[|es| - 1])
            && Exec(s, es) == Apply(Exec(s, before), es[|es| - 1])
    decreases es
  {
    if |es| == 1 {
      assert es[1..] == [] && es[..0] == [];
    } else {
      RunUnsnoc(Apply(s, es[0]), es[1..]);
      assert es[..|es| - 1][1..] == es[1..][..|es| - 2];
    }
  }

  lemma {:induction false} WantedIsGiven(pool: nat, threads: nat, es: seq<Event>, t: nat)
    requires pool > 0 && IsRun(Init(pool, threads), es) && t < threads
    ensures var s := Exec(Init(pool, threads), es);
            |s.pcs| == |s.wanted| == threads && s.wanted[t] == Given(es, t)
    decreases |es|
  {
    if es != [] {
      RunUnsnoc(Init(pool, threads), es);
      WantedIsGiven(pool, threads, es[..|es| - 1], t);
    }
  }

  lemma ReachablePlaced(pool: nat, threads: nat, es: seq<Event>, t: nat)
    requires pool > 0 && IsRun(Init(pool, threads), es) && t < threads
    ensures var s := Exec(Init(pool, threads), es);
            t < |s.pcs| && Placed(s.tree, s.pcs[t], Given(es, t))
  {
    InitInv(pool, threads);
    RunPlaced(Init(pool, threads), es);
    WantedIsGiven(pool, threads, es, t);
  }

  /**
    In every interleaving, a lookup that still has to consume pc.path of the path it was given stands on
    the one node whose own path is the part already consumed, resolved as PathNormalise resolves it.
   */
  lemma LookupStandsOnItsPrefix(pool: nat, threads: nat, es: seq<Event>, t: nat)
    requires pool > 0 && IsRun(Init(pool, threads), es) && t < threads
    requires t < |Exec(Init(pool, threads), es).pcs| && HasPath(Exec(Init(pool, threads), es).pcs[t])
    ensures var s, given := Exec(Init(pool, threads), es), Given(es, t);
            var pc := s.pcs[t];
            exists w :: given == w + pc.path && Spells(s.tree, P.Resolve([], w), From(pc)) &&
                        forall n :: Spells(s.tree, P.Resolve([], w), n) ==> n == From(pc)
  {
    var s, given := Exec(Init(pool, threads), es), Given(es, t);
    ReachablePlaced(pool, threads, es, t);
    InitInv(pool, threads);
    RunKeepsInv(Init(pool, threads), es);
    var w := given[..|given| - |s.pcs[t].path|];
    assert given == w + s.pcs[t].path;
    forall n | Spells(s.tree, P.Resolve([], w), n)
      ensures n == From(s.pcs[t])
    {
      SpellsOneNode(s.tree, s.pcs, P.Resolve([], w), n, From(s.pcs[t]));
    }
  }

  lemma EndOfPath(s: State, e: Event, given: seq<string>)
    requires Enabled(s, e) && s.pcs[e.t].Walk? && s.pcs[e.t].path == [] && Placed(s.tree, s.pcs[e.t], given)
    ensures NextPc(s, e) == Done(s.pcs[e.t].cur) && NextTree(s, e) == s.tree
    ensures Spells(s.tree, P.Resolve([], given), s.pcs[e.t].cur)
  {
    assert given[..|given|] == given;
  }

  /**
    A lookup that has consumed its whole path can only return, with the node the path names: the one
    whose own path is the given one with "." and ".." resolved.
   */
  lemma WholePathIsFound(pool: nat, threads: nat, es: seq<Event>, e: Event)
    requires pool > 0 && e.t < threads && IsRun(Init(pool, threads), es)
    requires Enabled(Exec(Init(pool, threads), es), e)
    requires var pc := Exec(Init(pool, threads), es).pcs[e.t]; pc.Walk? && pc.path == []
    ensures var s := Exec(Init(pool, threads), es);
            && NextPc(s, e) == Done(s.pcs[e.t].cur) && NextTree(s, e) == s.tree
            && Spells(s.tree, P.Resolve([], Given(es, e.t)), s.pcs[e.t].cur)
  {
    ReachablePlaced(pool, threads, es, e.t);
    EndOfPath(Exec(Init(pool, threads), es), e, Given(es, e.t));
  }

  /** Whatever made a lookup stop, the node it returns is one its path leads through. */
  lemma ResultIsOnThePath(pool: nat, threads: nat, es: seq<Event>, t: nat)
    requires pool > 0 && IsRun(Init(pool, threads), es) && t < threads
    requires t < |Exec(Init(pool, threads), es).pcs| && Exec(Init(pool, threads), es).pcs[t].Done?
    ensures var s, given := Exec(Init(pool, threads), es), Given(es, t);
            OnTheWay(s.tree, given, s.pcs[t].cur)
  {
    ReachablePlaced(pool, threads, es, t);
  }

  // ---- no node is lost ----

  predicate BroughtBy(pcs: seq<Pc>, n: NodeId) {
    exists t :: 0 <= t < |pcs| && Unlisted(pcs[t]) && pcs[t].child == n
  }

  /** A node in use is in the tree or on its way there. */
  ghost predicate NoneLost(s: State) {
    && |s.tree.nodes| == |s.tree.home|
    && forall n :: 0 <= n < |s.tree.nodes| && s.tree.nodes[n].dtype != FREE ==>
         Live(s.tree, n) || BroughtBy(s.pcs, n)
  }

  /** A thread lets go of the node it brings only by freeing or by listing it. */
  lemma StillBrings(s: State, e: Event, n: NodeId)
    requires Enabled(s, e) && Unlisted(s.pcs[e.t]) && s.pcs[e.t].child == n < |s.tree.nodes|
    requires NextTree(s, e).nodes[n].dtype != FREE && !Live(NextTree(s, e), n)
    ensures Unlisted(NextPc(s, e)) && NextPc(s, e).child == n
  {
  }

  /** Only a claim takes a free node into use, and no node of the tree leaves it. */
  lemma InUseBefore(s: State, e: Event, n: NodeId)
    requires Enabled(s, e) && Sizes(s.tree) && ThreadInv(s.tree, s.pcs[e.t]) && n < |s.tree.nodes|
    requires !(e.a.Claim? && n == e.a.got)
    requires NextTree(s, e).nodes[n].dtype != FREE && !Live(NextTree(s, e), n)
    ensures s.tree.nodes[n].dtype != FREE && !Live(s.tree, n)
  {
  }

  lemma NodeNotLost(s: State, e: Event, n: NodeId)
    requires Inv(s) && Enabled(s, e) && NoneLost(s) && n < |s.tree.nodes|
    requires NextTree(s, e).nodes[n].dtype != FREE && !Live(NextTree(s, e), n)
    ensures BroughtBy(Apply(s, e).pcs, n)
  {
    var pcs, pcs' := s.pcs, Apply(s, e).pcs;
    if e.a.Claim? && n == e.a.got {
      assert Unlisted(pcs'[e.t]) && pcs'[e.t].child == n;
    } else {
      assert ThreadInv(s.tree, pcs[e.t]);
      InUseBefore(s, e, n);
      var t :| 0 <= t < |pcs| && Unlisted(pcs[t]) && pcs[t].child == n;
      if t == e.t {
        StillBrings(s, e, n);
      }
      assert Unlisted(pcs'[t]) && pcs'[t].child == n;
    }
  }

  lemma StepLosesNone(s: State, e: Event)
    requires Inv(s) && Enabled(s, e) && NoneLost(s)
    ensures NoneLost(Apply(s, e))
  {
    var s' := Apply(s, e);
    forall n | 0 <= n < |s'.tree.nodes| && s'.tree.nodes[n].dtype != FREE
      ensures Live(s'.tree, n) || BroughtBy(s'.pcs, n)
    {
      if !Live(s'.tree, n) {
        NodeNotLost(s, e, n);
      }
    }
  }

  lemma {:induction false} RunLosesNone(s: State, es: seq<Event>)
    requires Inv(s) && NoneLost(s) && IsRun(s, es)
    ensures Inv(Exec(s, es)) && NoneLost(Exec(s, es))
    decreases es
  {
    if es != [] {
      StepKeepsInv(s, es[0]);
      StepLosesNone(s, es[0]);
      RunLosesNone(Apply(s, es[0]), es[1..]);
    }
  }

  lemma NodeBelow(tr: Tree, pcs: seq<Pc>, n: NodeId)
    requires TreeInv(tr, pcs) && n < |tr.nodes| && Live(tr, n) && n != ROOT
    ensures var p := tr.home[n].n; p < |tr.nodes| && Live(tr, p) && tr.depth[n] == tr.depth[p] + 1
  {
    assert Directory(tr, pcs, n);
    assert Directory(tr, pcs, tr.home[n].n);
  }

  /** The own path of a node of the tree. */
  lemma {:induction false} OwnPath(tr: Tree, pcs: seq<Pc>, n: NodeId) returns (names: seq<string>)
    requires TreeInv(tr, pcs) && n < |tr.nodes| && Live(tr, n)
    ensures Spells(tr, names, n)
    decreases tr.depth[n]
  {
    names := [];
    if n != ROOT {
      NodeBelow(tr, pcs, n);
      var above := OwnPath(tr, pcs, tr.home[n].n);
      names := above + [tr.nodes[n].name];
      assert names[..|names| - 1] == above;
    }
  }

  ghost predicate HasName(tr: Tree, n: NodeId) {
    exists names :: Spells(tr, names, n)
  }

  lemma LiveIffNamed(tr: Tree, pcs: seq<Pc>, n: NodeId)
    requires TreeInv(tr, pcs) && n < |tr.nodes|
    ensures Live(tr, n) <==> HasName(tr, n)
  {
    if Live(tr, n) {
      var names := OwnPath(tr, pcs, n);
    }
  }

  predicate NoInsertion(pcs: seq<Pc>) {
    forall t :: 0 <= t < |pcs| ==> !Unlisted(pcs[t])
  }

  lemma InUseIffLive(s: State, n: NodeId)
    requires Inv(s) && NoneLost(s) && NoInsertion(s.pcs) && n < |s.tree.nodes|
    ensures s.tree.nodes[n].dtype != FREE <==> Live(s.tree, n)
  {
    if n != ROOT && Live(s.tree, n) {
      ListedIsInTree(s.tree, s.pcs, n);
    }
  }

  /**
    Whenever no lookup is half way through an insertion, whatever came before, the nodes of the pool that
    are not free are exactly those that some path from the root leads to.
   */
  lemma InUseIffNamed(pool: nat, threads: nat, es: seq<Event>, n: NodeId)
    requires pool > 0 && IsRun(Init(pool, threads), es) && n < pool
    ensures var s := Exec(Init(pool, threads), es);
            && n < |s.tree.nodes|
            && (NoInsertion(s.pcs) ==> (s.tree.nodes[n].dtype != FREE <==> HasName(s.tree, n)))
  {
    var s := Exec(Init(pool, threads), es);
    InitInv(pool, threads);
    RunKeepsInv(Init(pool, threads), es);
    RunLosesNone(Init(pool, threads), es);
    if NoInsertion(s.pcs) {
      InUseIffLive(s, n);
      LiveIffNamed(s.tree, s.pcs, n);
    }
  }

  // ---- the type of a node ----

  /** Event e, in state s, is the load of node n. */
  predicate Loads(s: State, e: Event, n: NodeId) {
    e.a.LoadOk? && e.t < |s.pcs| && s.pcs[e.t].Load? && s.pcs[e.t].child == n
  }

  /** What the file system answered when node n was last loaded. */
  function LastType(pool: nat, threads: nat, es: seq<Event>, n: NodeId): Option<nat>
    requires pool > 0 && IsRun(Init(pool, threads), es)
    decreases |es|
  {
    if es == [] then None
    else
      RunUnsnoc(Init(pool, threads), es);
      var before, e := es[..|es| - 1], es[|es| - 1];
      if Loads(Exec(Init(pool, threads), before), e, n) then Some(e.a.ty) else LastType(pool, threads, before, n)
  }

  predicate LinkedBy(pc: Pc, n: NodeId) {
    (pc.Link1? || pc.Link2? || pc.Link3?) && pc.child == n
  }

  /** Node n has been loaded: it is in the tree, or its thread is linking it. */
  predicate IsLoaded(s: State, n: NodeId) {
    n != ROOT && (Live(s.tree, n) || exists t :: 0 <= t < |s.pcs| && LinkedBy(s.pcs[t], n))
  }

  /** Where the acting thread's node is concerned. */
  lemma LoadedActing(s: State, e: Event, n: NodeId)
    requires Enabled(s, e) && !Loads(s, e, n) && n != ROOT && n < |s.tree.nodes|
    ensures LinkedBy(NextPc(s, e), n) ==> LinkedBy(s.pcs[e.t], n)
    ensures Live(NextTree(s, e), n) ==> Live(s.tree, n) || LinkedBy(s.pcs[e.t], n)
    ensures NextTree(s, e).nodes[n].dtype == s.tree.nodes[n].dtype ||
            ((e.a.Claim? || e.a.LoadFail?) && OwnNode(s.pcs[e.t], e.a) == n)
  {
  }

  lemma LoadedStays(s: State, e: Event, n: NodeId)
    requires Inv(s) && Enabled(s, e) && !Loads(s, e, n) && n < |s.tree.nodes| && IsLoaded(Apply(s, e), n)
    ensures IsLoaded(s, n) && NextTree(s, e).nodes[n].dtype == s.tree.nodes[n].dtype
  {
    LoadedActing(s, e, n);
    if !Live(s.tree, n) && !LinkedBy(s.pcs[e.t], n) {
      var t :| 0 <= t < |s.pcs| && LinkedBy(Apply(s, e).pcs[t], n);
      assert t != e.t && LinkedBy(s.pcs[t], n);
    }
    OwnDetachedHolds(s, e);
  }

  /**
    In every run the type of a node of the tree is the one the file system gave when the node was
    loaded.
   */
  lemma {:induction false} TypeIsWhatWasLoaded(pool: nat, threads: nat, es: seq<Event>, n: NodeId)
    requires pool > 0 && IsRun(Init(pool, threads), es) && n < pool && IsLoaded(Exec(Init(pool, threads), es), n)
    ensures var s := Exec(Init(pool, threads), es);
            n < |s.tree.nodes| && LastType(pool, threads, es, n) == Some(s.tree.nodes[n].dtype)
    decreases |es|
  {
    InitInv(pool, threads);
    RunKeepsInv(Init(pool, threads), es);
    if es != [] {
      RunUnsnoc(Init(pool, threads), es);
      var before, e := es[..|es| - 1], es[|es| - 1];
      var s := Exec(Init(pool, threads), before);
      RunKeepsInv(Init(pool, threads), before);
      if !Loads(s, e, n) {
        LoadedStays(s, e, n);
        TypeIsWhatWasLoaded(pool, threads, before, n);
      }
    }
  }
}
