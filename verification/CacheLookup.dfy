/**
  Path lookup through the file system cache (fscache_request_node in src/vfs/fscache.c) over
  kernelfs, one lookup at a time, against a plain walk of the kernelfs tree.

  Every lookup includes the release of the node it ends on, which fscache_request_node or its caller
  does.  The nodes' lock words are kept, because a lookup that climbs above the root leaves the
  root's lock negative, and then no later one returns.
 */
module CacheLookup {
  import opened Common
  import opened KernelFs
  import L = FsCacheLocks
  import P = PathNormalise

  /** struct fscache_node; children with the most recently linked first. */
  datatype CNode = CNode(name: string, kind: nat, uid: nat, gid: nat, mode: nat, parent: Option<nat>,
                         children: seq<nat>, backing: nat)

  type Cache = seq<CNode> // node 0 is fscache_root_node

  /** Whether access_check grants execution. */
  predicate MayExecute(mode: nat, fileUid: nat, uid: nat) {
    if uid == 0 then mode / 64 % 2 == 1 || mode / 8 % 2 == 1 || mode % 2 == 1
    else if uid == fileUid then mode / 64 % 2 == 1
    else mode % 2 == 1
  }

  // ---- the plain walk ----

  /** What one component does: an error (perhaps by asking for the root's parent), or the node to go on from. */
  datatype Step = Stop(code: int, climbed: bool) | On(next: nat)

  function PlainStep(fs: Fs, cur: nat, c: string, last: bool, uid: nat): (r: Step)
    requires FsOk(fs) && cur < |fs|
    ensures r.On? ==> r.next < |fs|
  {
    var n := fs[cur];
    assert NodeOk(fs, cur);
    if n.kind != DT_DIR then Stop(-ENOTDIR, false)
    else if !MayExecute(n.mode, n.uid, uid) then Stop(-EACCES, false)
    else if c == ".." then (if n.parent == None then Stop(-ENOENT, true) else On(n.parent.value))
    else if c == "." then On(cur)
    else
      match FindChild(fs, cur, c)
      case None => Stop(if last then ONE_LEVEL_AWAY else -ENOENT, false)
      case Some(k) => On(k)
  }

  /** The return value, the node reached last and whether the walk asked for the parent of the root. */
  datatype Ended = Ended(code: int, node: nat, climbed: bool)

  /**
    Follow the components from node cur, checking every directory on the way.  `trailing` says that
    the path ends with a slash.
   */
  function Walk(fs: Fs, cur: nat, comps: seq<string>, trailing: bool, uid: nat): (r: Ended)
    requires FsOk(fs) && cur < |fs|
    ensures r.node < |fs| && (r.code <= 0 || r.code == ONE_LEVEL_AWAY)
    decreases |comps|
  {
    if comps == [] then Ended(if fs[cur].kind != DT_DIR && trailing then -ENOTDIR else 0, cur, false)
    else
      match PlainStep(fs, cur, comps[0], |comps| == 1 && !trailing, uid)
      case Stop(code, climbed) => Ended(code, cur, climbed)
      case On(next) => Walk(fs, next, comps[1..], trailing, uid)
  }

  /** The nodes on the way from the root to cur. */
  ghost predicate Lineage(fs: Fs, stack: seq<nat>, cur: nat)
    decreases |stack|
  {
    cur < |fs| &&
    if stack == [] then cur == 0
    else fs[cur].parent == Some(stack[|stack| - 1]) && Lineage(fs, stack[..|stack| - 1], stack[|stack| - 1])
  }

  lemma LineageStep(fs: Fs, stack: seq<nat>, cur: nat, c: string, last: bool, uid: nat) returns (stack': seq<nat>)
    requires FsOk(fs) && Lineage(fs, stack, cur) && PlainStep(fs, cur, c, last, uid).On?
    ensures Lineage(fs, stack', PlainStep(fs, cur, c, last, uid).next)
    ensures |stack'| == if c == "." then |stack| else if c == ".." then |stack| - 1 else |stack| + 1
  {
    assert NodeOk(fs, cur);
    if c == "." {
      stack' := stack;
    } else if c == ".." {
      stack' := stack[..|stack| - 1];
    } else {
      stack' := stack + [cur];
      assert stack'[..|stack|] == stack;
    }
  }

  lemma OneMoreWalked(walked: seq<string>, comps: seq<string>)
    requires comps != [] && L.StaysBelowRoot(walked + comps)
    ensures walked + [comps[0]] + comps[1..] == walked + comps
    ensures comps[0] == ".." ==> L.Height(walked) > 0
    ensures var h := L.Height(walked);
            L.Height(walked + [comps[0]]) ==
            if comps[0] == "." then h else if comps[0] != ".." then h + 1 else if h == 0 then 0 else h - 1
  {
    var all, k := walked + comps, |walked|;
    L.PrefixStaysBelowRoot(all, k + 1);
    L.OneToken(all, k);
    assert all[..k] == walked && all[..k + 1] == walked + [comps[0]];
  }

  /** A path that stays below the root, seen without any tree, never climbs above it. */
  lemma {:induction false} BelowRootNeverClimbs(fs: Fs, stack: seq<nat>, cur: nat, walked: seq<string>,
                                                comps: seq<string>, trailing: bool, uid: nat)
    requires FsOk(fs) && Lineage(fs, stack, cur) && L.Height(walked) == |stack| && L.StaysBelowRoot(walked + comps)
    ensures !Walk(fs, cur, comps, trailing, uid).climbed
    decreases |comps|
  {
    if comps != [] {
      assert NodeOk(fs, cur);
      OneMoreWalked(walked, comps);
      var last := |comps| == 1 && !trailing;
      var r := PlainStep(fs, cur, comps[0], last, uid);
      if r.On? {
        var stack' := LineageStep(fs, stack, cur, comps[0], last, uid);
        BelowRootNeverClimbs(fs, stack', r.next, walked + [comps[0]], comps[1..], trailing, uid);
      }
    }
  }

  predicate EndsWithSlash(path: string) {
    path != "" && path[|path| - 1] == '/'
  }

  /** fscache_request_node without a cache. */
  function PlainLookup(fs: Fs, path: string, uid: nat): Ended
    requires FsOk(fs)
  {
    if path == "" then Ended(-EINVAL, 0, false) else Walk(fs, 0, P.Components(path), EndsWithSlash(path), uid)
  }

  // ---- what the cache promises ----

  ghost predicate CNodeOk(fs: Fs, cache: Cache, c: nat)
    requires c < |cache|
  {
    var x := cache[c];
    && x.backing < |fs|
    && var n := fs[x.backing];
       && x.name == n.name && x.kind == n.kind && x.uid == n.uid && x.gid == n.gid && x.mode == n.mode
       && (x.parent == None <==> x.backing == 0) && (x.backing == 0 <==> c == 0)
       && (x.parent.Some? ==> x.parent.value < |cache| && n.parent == Some(cache[x.parent.value].backing))
       && (forall k :: 0 <= k < |x.children| ==> ChildOk(fs, cache, c, x.children[k]))
  }

  /** A cached child stands for the node a search of kernelfs would find under its name. */
  ghost predicate ChildOk(fs: Fs, cache: Cache, c: nat, d: nat)
    requires c < |cache|
  {
    && d < |cache| && cache[c].backing < |fs| && FindableKids(fs, cache[c].backing)
    && FindChild(fs, cache[c].backing, cache[d].name) == Some(cache[d].backing)
  }

  ghost predicate CacheOk(fs: Fs, cache: Cache) {
    && cache != [] && cache[0].backing == 0
    && forall c: nat {:trigger CNodeOk(fs, cache, c)} :: c < |cache| ==> CNodeOk(fs, cache, c)
  }

  ghost predicate KidsInCache(cache: Cache, kids: seq<nat>) {
    forall k :: 0 <= k < |kids| ==> kids[k] < |cache|
  }

  /** _fscache_find_in_children */
  function CFind(cache: Cache, kids: seq<nat>, name: string): (r: Option<nat>)
    requires KidsInCache(cache, kids)
    ensures r.Some? ==> r.value in kids && cache[r.value].name == name
  {
    if kids == [] then None else if cache[kids[0]].name == name then Some(kids[0]) else CFind(cache, kids[1..], name)
  }

  lemma CachedKids(fs: Fs, cache: Cache, c: nat)
    requires CacheOk(fs, cache) && c < |cache|
    ensures KidsInCache(cache, cache[c].children)
  {
    assert CNodeOk(fs, cache, c);
    forall k | 0 <= k < |cache[c].children|
      ensures cache[c].children[k] < |cache|
    {
      assert ChildOk(fs, cache, c, cache[c].children[k]);
    }
  }

  /** kernelfs_load into a new cache node, and _fscache_link_node. */
  function Linked(fs: Fs, cache: Cache, c: nat, k: nat): Cache
    requires c < |cache| && k < |fs|
  {
    var n := fs[k];
    cache[c := cache[c].(children := [|cache|] + cache[c].children)] +
    [CNode(Take(n.name, NAME_MAX), n.kind, n.uid, n.gid, n.mode, Some(c), [], k)]
  }

  lemma LinkKeepsCache(fs: Fs, cache: Cache, c: nat, k: nat, name: string)
    requires FsOk(fs) && CacheOk(fs, cache) && c < |cache| && cache[c].backing < |fs| &&
             FindableKids(fs, cache[c].backing)
    requires FindChild(fs, cache[c].backing, name) == Some(k)
    ensures k < |fs| && CacheOk(fs, Linked(fs, cache, c, k))
  {
    var b := cache[c].backing;
    assert NodeOk(fs, b) && NodeOk(fs, k) && fs[k].parent == Some(b);
    assert Take(fs[k].name, NAME_MAX) == name;
    var cache' := Linked(fs, cache, c, k);
    forall d: nat | d < |cache'|
      ensures CNodeOk(fs, cache', d)
    {
      if d < |cache| {
        assert CNodeOk(fs, cache, d);
        forall j | 0 <= j < |cache'[d].children|
          ensures ChildOk(fs, cache', d, cache'[d].children[j])
        {
          if d != c || j > 0 {
            var e := cache'[d].children[j];
            assert e == cache[d].children[if d == c then j - 1 else j];
            assert ChildOk(fs, cache, d, e);
          }
        }
      }
    }
  }

  // ---- the walk through the cache ----

  datatype CStep = CStop(code: int, climbed: bool) | COn(cache: Cache, room: nat, next: nat)

  /** One component, when fscache_allocate_node can provide `room` more nodes. */
  function CachedStep(fs: Fs, cache: Cache, room: nat, cur: nat, c: string, last: bool, uid: nat): CStep
    requires FsOk(fs) && CacheOk(fs, cache) && cur < |cache|
  {
    var x := cache[cur];
    assert CNodeOk(fs, cache, cur);
    if x.kind != DT_DIR then CStop(-ENOTDIR, false)
    else if !MayExecute(x.mode, x.uid, uid) then CStop(-EACCES, false)
    else if c == ".." then (if x.parent == None then CStop(-ENOENT, true) else COn(cache, room, x.parent.value))
    else if c == "." then COn(cache, room, cur)
    else
      CachedKids(fs, cache, cur);
      match CFind(cache, x.children, c)
      case Some(d) => COn(cache, room, d)
      case None =>
        assert NodeOk(fs, x.backing);
        if room == 0 then CStop(-ENOMEM, false)
        else
          match FindChild(fs, x.backing, c)
          case None => CStop(if last then ONE_LEVEL_AWAY else -ENOENT, false)
          case Some(k) => LinkKeepsCache(fs, cache, cur, k, c); COn(Linked(fs, cache, cur, k), room - 1, |cache|)
  }

  lemma FoundIsBacked(fs: Fs, cache: Cache, cur: nat, c: string)
    requires FsOk(fs) && CacheOk(fs, cache) && cur < |cache|
    ensures KidsInCache(cache, cache[cur].children) && cache[cur].backing < |fs| && FindableKids(fs, cache[cur].backing)
    ensures var d := CFind(cache, cache[cur].children, c);
            d.Some? ==> d.value < |cache| && FindChild(fs, cache[cur].backing, c) == Some(cache[d.value].backing)
  {
    CachedKids(fs, cache, cur);
    assert CNodeOk(fs, cache, cur);
    assert NodeOk(fs, cache[cur].backing);
    var d := CFind(cache, cache[cur].children, c);
    if d.Some? {
      var j :| 0 <= j < |cache[cur].children| && cache[cur].children[j] == d.value;
      assert ChildOk(fs, cache, cur, cache[cur].children[j]);
    }
  }

  /** What a cached step may do beside the plain step p. */
  ghost predicate StepsAgree(fs: Fs, cache: Cache, room: nat, cur: nat, r: CStep, p: Step) {
    match r
    case CStop(code, climbed) =>
      if code == -ENOMEM then room == 0 && !climbed else p == Stop(code, climbed) && (climbed ==> cur == 0)
    case COn(cache', room', next) =>
      && CacheOk(fs, cache') && next < |cache'| && p == On(cache'[next].backing)
      && room' + |cache'| == room + |cache| && |cache| <= |cache'|
  }

  lemma CachedNameIsPlain(fs: Fs, cache: Cache, room: nat, cur: nat, c: string, last: bool, uid: nat)
    requires FsOk(fs) && CacheOk(fs, cache) && cur < |cache| && c != ".." && c != "."
    requires cache[cur].kind == DT_DIR && MayExecute(cache[cur].mode, cache[cur].uid, uid)
    ensures cache[cur].backing < |fs|
    ensures StepsAgree(fs, cache, room, cur, CachedStep(fs, cache, room, cur, c, last, uid),
                       PlainStep(fs, cache[cur].backing, c, last, uid))
  {
    assert CNodeOk(fs, cache, cur);
    FoundIsBacked(fs, cache, cur, c);
    assert NodeOk(fs, cache[cur].backing);
    if FindChild(fs, cache[cur].backing, c).Some? {
      LinkKeepsCache(fs, cache, cur, FindChild(fs, cache[cur].backing, c).value, c);
    }
  }

  /** One component through the cache is one component of the plain walk, unless memory has run out. */
  lemma CachedStepIsPlain(fs: Fs, cache: Cache, room: nat, cur: nat, c: string, last: bool, uid: nat)
    requires FsOk(fs) && CacheOk(fs, cache) && cur < |cache|
    ensures cache[cur].backing < |fs|
    ensures StepsAgree(fs, cache, room, cur, CachedStep(fs, cache, room, cur, c, last, uid),
                       PlainStep(fs, cache[cur].backing, c, last, uid))
  {
    assert CNodeOk(fs, cache, cur);
    assert NodeOk(fs, cache[cur].backing);
    if cache[cur].kind == DT_DIR && MayExecute(cache[cur].mode, cache[cur].uid, uid) && c != ".." && c != "." {
      CachedNameIsPlain(fs, cache, room, cur, c, last, uid);
    }
  }

  datatype Walked = Walked(cache: Cache, room: nat, code: int, node: nat, climbed: bool)

  function CWalk(fs: Fs, cache: Cache, room: nat, cur: nat, comps: seq<string>, trailing: bool, uid: nat): Walked
    requires FsOk(fs) && CacheOk(fs, cache) && cur < |cache|
    decreases |comps|
  {
    if comps == [] then Walked(cache, room, if cache[cur].kind != DT_DIR && trailing then -ENOTDIR else 0, cur, false)
    else
      CachedStepIsPlain(fs, cache, room, cur, comps[0], |comps| == 1 && !trailing, uid);
      match CachedStep(fs, cache, room, cur, comps[0], |comps| == 1 && !trailing, uid)
      case CStop(code, climbed) => Walked(cache, room, code, cur, climbed)
      case COn(cache', room', next) => CWalk(fs, cache', room', next, comps[1..], trailing, uid)
  }

  /** With whatever is cached, the walk ends as the plain walk does, and leaves the cache in order. */
  lemma {:induction false} CachedWalkIsPlain(fs: Fs, cache: Cache, room: nat, cur: nat, comps: seq<string>,
                                             trailing: bool, uid: nat)
    requires FsOk(fs) && CacheOk(fs, cache) && cur < |cache|
    ensures cache[cur].backing < |fs|
    ensures var w := CWalk(fs, cache, room, cur, comps, trailing, uid);
            var p := Walk(fs, cache[cur].backing, comps, trailing, uid);
            && CacheOk(fs, w.cache) && w.node < |w.cache| && (w.climbed ==> w.node == 0)
            && w.room + |w.cache| == room + |cache| && |cache| <= |w.cache|
            && (w.code != -ENOMEM ==> Ended(w.code, w.cache[w.node].backing, w.climbed) == p)
            && (w.code == -ENOMEM ==> w.room == 0 && !w.climbed)
    decreases |comps|
  {
    assert CNodeOk(fs, cache, cur);
    if comps != [] {
      var last := |comps| == 1 && !trailing;
      CachedStepIsPlain(fs, cache, room, cur, comps[0], last, uid);
      match CachedStep(fs, cache, room, cur, comps[0], last, uid)
      case CStop(_, _) =>
      case COn(cache', room', next) => CachedWalkIsPlain(fs, cache', room', next, comps[1..], trailing, uid);
    }
  }

  // ---- histories ----

  ghost predicate BothOk(fs: Fs, cache: Cache) {
    FsOk(fs) && CacheOk(fs, cache)
  }

  /** The tree, the cache, the nodes that can still be allocated and the lock word of every cached node. */
  datatype World = World(fs: Fs, cache: Cache, room: nat, locks: seq<int>)

  /** Between lookups nobody holds a lock; only the root's may have been released too often. */
  ghost predicate WorldOk(w: World) {
    && BothOk(w.fs, w.cache) && |w.locks| == |w.cache| && w.locks[0] <= 0
    && forall c :: 0 < c < |w.locks| ==> w.locks[c] == 0
  }

  datatype Outcome = Hangs | Returns(code: int, node: nat)

  function LocksAfter(n: nat, climbed: bool): seq<int> {
    seq(n, (c: int) => if c == 0 && climbed then -1 else 0)
  }

  /** A lookup with its final release.  It waits for the root's lock, for ever if that is negative. */
  ghost function LookedUp(w: World, path: string, uid: nat): (World, Outcome)
    requires WorldOk(w)
  {
    if path == "" then (w, Returns(-EINVAL, 0))
    else if w.locks[0] < 0 then (w, Hangs)
    else
      var r := CWalk(w.fs, w.cache, w.room, 0, P.Components(path), EndsWithSlash(path), uid);
      CachedWalkIsPlain(w.fs, w.cache, w.room, 0, P.Components(path), EndsWithSlash(path), uid);
      (World(w.fs, r.cache, r.room, LocksAfter(|r.cache|, r.climbed)), Returns(r.code, r.node))
  }

  /** One lookup: hangs exactly on a negative lock; otherwise the plain answer, unless memory ran out. */
  lemma OneLookup(w: World, path: string, uid: nat)
    requires WorldOk(w)
    ensures var (w', out) := LookedUp(w, path, uid);
            && WorldOk(w') && w'.fs == w.fs && (out.Hangs? <==> path != "" && w.locks[0] < 0)
            && (out.Returns? ==>
                  && out.node < |w'.cache|
                  && (out.code != -ENOMEM ==>
                        var p := PlainLookup(w.fs, path, uid);
                        (out.code, w'.cache[out.node].backing) == (p.code, p.node))
                  && (out.code == -ENOMEM ==> w'.room == 0))
    ensures var (w', out) := LookedUp(w, path, uid);
            w'.locks[0] < 0 <==> w.locks[0] < 0 || (out.code != -ENOMEM && PlainLookup(w.fs, path, uid).climbed)
  {
    if path != "" && w.locks[0] == 0 {
      CachedWalkIsPlain(w.fs, w.cache, w.room, 0, P.Components(path), EndsWithSlash(path), uid);
    }
  }

  /**
    A creation comes from the kernel itself (kernelfs_create_node) or through vfs_creatat and vfs_mkdir.
    Those take a cache node first, fail without one, and never give it back.
   */
  datatype Event =
    | Lookup(path: string, uid: nat)
    | Create(parent: nat, name: string, kind: nat, uid: nat, gid: nat, mode: nat, byVfs: bool)

  ghost function Next(w: World, e: Event): World
    requires WorldOk(w)
  {
    match e
    case Lookup(path, uid) => LookedUp(w, path, uid).0
    case Create(p, name, kind, uid, gid, mode, byVfs) =>
      if p >= |w.fs| || (byVfs && (w.fs[p].kind != DT_DIR || w.room == 0)) then w
      else
        assert NodeOk(w.fs, p);
        w.(fs := Created(w.fs, p, name, kind, uid, gid, mode).0, room := if byVfs then w.room - 1 else w.room)
  }

  /** Creating a node invalidates nothing that is cached. */
  lemma CreateKeepsCache(fs: Fs, cache: Cache, p: nat, name: string, kind: nat, uid: nat, gid: nat, mode: nat)
    requires BothOk(fs, cache) && p < |fs| && fs[p].kind == DT_DIR
    ensures BothOk(Added(fs, p, name, kind, uid, gid, mode), cache)
  {
    var fs' := Added(fs, p, name, kind, uid, gid, mode);
    AddedOk(fs, p, name, kind, uid, gid, mode);
    forall c: nat | c < |cache|
      ensures CNodeOk(fs', cache, c)
    {
      assert CNodeOk(fs, cache, c);
      forall k | 0 <= k < |cache[c].children|
        ensures ChildOk(fs', cache, c, cache[c].children[k])
      {
        var d := cache[c].children[k];
        assert ChildOk(fs, cache, c, d);
        FindAfterCreate(fs, p, name, kind, uid, gid, mode, cache[c].backing, cache[d].name);
      }
    }
  }

  lemma NextKeeps(w: World, e: Event)
    requires WorldOk(w)
    ensures WorldOk(Next(w, e))
  {
    match e
    case Lookup(path, uid) => OneLookup(w, path, uid);
    case Create(p, name, kind, uid, gid, mode, byVfs) =>
      if p < |w.fs| {
        assert NodeOk(w.fs, p);
        if Created(w.fs, p, name, kind, uid, gid, mode).0 != w.fs {
          CreateKeepsCache(w.fs, w.cache, p, name, kind, uid, gid, mode);
        }
      }
  }

  ghost function Played(w: World, es: seq<Event>): World
    requires WorldOk(w)
    decreases |es|
  {
    if es == [] then w else
    NextKeeps(w, es[0]);
    Played(Next(w, es[0]), es[1..])
  }

  lemma {:induction false} PlayedOk(w: World, es: seq<Event>)
    requires WorldOk(w)
    ensures WorldOk(Played(w, es))
    decreases |es|
  {
    if es != [] {
      NextKeeps(w, es[0]);
      PlayedOk(Next(w, es[0]), es[1..]);
    }
  }

  /**
    Some lookup of the history returned after it had asked for the parent of the root.  Its own result
    is read because a lookup that runs out of nodes on its way down never gets to the "..".
   */
  ghost predicate SomeoneClimbed(w: World, es: seq<Event>)
    requires WorldOk(w)
    decreases |es|
  {
    es != [] &&
    (NextKeeps(w, es[0]);
     (es[0].Lookup? && PlainLookup(w.fs, es[0].path, es[0].uid).climbed &&
      var out := LookedUp(w, es[0].path, es[0].uid).1; out.Returns? && out.code != -ENOMEM)
     || SomeoneClimbed(Next(w, es[0]), es[1..]))
  }

  /** The root's lock is negative after a history if and only if it was before or some lookup climbed. */
  lemma {:induction false} ShutIffSomeoneClimbed(w: World, es: seq<Event>)
    requires WorldOk(w)
    ensures WorldOk(Played(w, es)) && (Played(w, es).locks[0] < 0 <==> w.locks[0] < 0 || SomeoneClimbed(w, es))
    decreases |es|
  {
    if es != [] {
      NextKeeps(w, es[0]);
      if es[0].Lookup? {
        OneLookup(w, es[0].path, es[0].uid);
      }
      ShutIffSomeoneClimbed(Next(w, es[0]), es[1..]);
    }
  }

  /**
    After any history of lookups and creations, a lookup through the cache hangs if and only if some
    earlier one climbed above the root, and otherwise returns the same code and reaches the same
    kernelfs node as a plain walk: what happens to be cached never shows, unless memory runs out.
   */
  lemma CacheIsTransparent(w0: World, es: seq<Event>, path: string, uid: nat)
    requires WorldOk(w0) && w0.locks[0] == 0
    ensures WorldOk(Played(w0, es))
    ensures var w := Played(w0, es);
            var (w', out) := LookedUp(w, path, uid);
            && (out.Hangs? <==> path != "" && SomeoneClimbed(w0, es))
            && (out.Returns? ==>
                  && out.node < |w'.cache|
                  && (out.code != -ENOMEM ==>
                        var p := PlainLookup(w.fs, path, uid);
                        (out.code, w'.cache[out.node].backing) == (p.code, p.node))
                  && (out.code == -ENOMEM ==> w'.room == 0))
  {
    ShutIffSomeoneClimbed(w0, es);
    OneLookup(Played(w0, es), path, uid);
  }

  predicate StaysBelow(e: Event) { e.Lookup? ==> L.StaysBelowRoot(P.Components(e.path)) }

  /** Histories whose paths stay below the root never shut the cache. */
  lemma {:induction false} BelowRootNeverShuts(w: World, es: seq<Event>)
    requires WorldOk(w) && forall i :: 0 <= i < |es| ==> StaysBelow(es[i])
    ensures !SomeoneClimbed(w, es)
    decreases |es|
  {
    if es != [] {
      NextKeeps(w, es[0]);
      assert StaysBelow(es[0]);
      if es[0].Lookup? {
        assert [] + P.Components(es[0].path) == P.Components(es[0].path);
        BelowRootNeverClimbs(w.fs, [], 0, [], P.Components(es[0].path), EndsWithSlash(es[0].path), es[0].uid);
      }
      BelowRootNeverShuts(Next(w, es[0]), es[1..]);
    }
  }

  /** fscache_init: the root alone. */
  lemma InitialCache(fs: Fs)
    requires FsOk(fs)
    ensures BothOk(fs, [CNode(Take(fs[0].name, NAME_MAX), fs[0].kind, fs[0].uid, fs[0].gid, fs[0].mode, None, [], 0)])
  {
    assert NodeOk(fs, 0);
    assert Take(fs[0].name, NAME_MAX) == fs[0].name;
  }

  // ---- the code ----

  /** One lock is held for reading, and no other one is held. */
  predicate OneHeld(locks: seq<int>, n: nat, cur: nat) {
    |locks| == n && cur < n && forall c :: 0 <= c < n ==> locks[c] == if c == cur then 1 else 0
  }

  class NodeCache {
    const disk: FileSystem
    var cache: Cache
    var room: nat
    var locks: seq<int>

    ghost function Now(): World
      reads this, disk
    {
      World(disk.fs, cache, room, locks)
    }

    ghost predicate Valid()
      reads this, disk
    {
      WorldOk(Now())
    }

    /** fscache_init */
    constructor (d: FileSystem, free: nat)
      requires d.Valid()
      ensures Valid() && disk == d && |cache| == 1 && locks == [0] && room == free
    {
      disk := d;
      var n := d.fs[0];
      cache := [CNode(Take(n.name, NAME_MAX), n.kind, n.uid, n.gid, n.mode, None, [], 0)];
      room, locks := free, [0];
      InitialCache(d.fs);
    }

    /** _fscache_find_in_children: strncmp over the token's length and a terminator behind it. */
    method FindInChildren(cur: nat, token: string) returns (r: Option<nat>)
      requires BothOk(disk.fs, cache) && cur < |cache|
      ensures KidsInCache(cache, cache[cur].children) && r == CFind(cache, cache[cur].children, token)
    {
      CachedKids(disk.fs, cache, cur);
      var kids, k := cache[cur].children, 0;
      assert kids[0..] == kids;
      while k < |kids|
        invariant k <= |kids| && CFind(cache, kids, token) == CFind(cache, kids[k..], token)
      {
        CFindStep(cache, kids, k, token);
        var name := cache[kids[k]].name;
        WholeToken(name, token);
        if StrnEq(name, token, |token|) && |name| == |token| {
          return Some(kids[k]);
        }
        k := k + 1;
      }
      return None;
    }

    /** One component of fscache_request_node: an error, or the node to go on from. */
    method Descend(cur: nat, token: string, last: bool, uid: nat) returns (res: int, next: nat, climbed: bool)
      requires BothOk(disk.fs, cache) && cur < |cache| && OneHeld(locks, |cache|, cur)
      modifies this`cache, this`room, this`locks
      ensures BothOk(disk.fs, cache) && next < |cache| && (climbed ==> res != 0 && next == 0)
      ensures if climbed then locks == LocksAfter(|cache|, false) else OneHeld(locks, |cache|, next)
      ensures match CachedStep(disk.fs, old(cache), old(room), cur, token, last, uid)
              case CStop(code, c) =>
                res == code != 0 && climbed == c && next == cur && cache == old(cache) && room == old(room)
              case COn(cache', room', n) => res == 0 && !climbed && next == n && cache == cache' && room == room'
    {
      CachedStepIsPlain(disk.fs, cache, room, cur, token, last, uid);
      assert CNodeOk(disk.fs, cache, cur);
      climbed := false;
      var x := cache[cur];
      if x.kind != DT_DIR {
        return -ENOTDIR, cur, false;
      }
      if !MayExecute(x.mode, x.uid, uid) {
        return -EACCES, cur, false;
      }
      if token == ".." {
        if x.parent == None {
          locks := locks[cur := locks[cur] - 1];
          return -ENOENT, cur, true;
        }
        MoveLock(cur, x.parent.value);
        return 0, x.parent.value, false;
      }
      if token == "." {
        return 0, cur, false;
      }
      var child := FindInChildren(cur, token);
      if child.Some? {
        MoveLock(cur, child.value);
        return 0, child.value, false;
      }
      res, next := LoadChild(cur, token, last);
    }

    /** Lock the next node before the current one is released. */
    method MoveLock(cur: nat, next: nat)
      requires OneHeld(locks, |cache|, cur) && next < |cache|
      modifies this`locks
      ensures OneHeld(locks, |cache|, next)
    {
      locks := locks[next := locks[next] + 1];
      locks := locks[cur := locks[cur] - 1];
    }

    /** The part that runs under the write lock of cur. */
    method LoadChild(cur: nat, token: string, last: bool) returns (res: int, next: nat)
      requires BothOk(disk.fs, cache) && cur < |cache| && OneHeld(locks, |cache|, cur) && cache[cur].backing < |disk.fs|
      modifies this`cache, this`room, this`locks
      ensures BothOk(disk.fs, cache) && OneHeld(locks, |cache|, next) && room + |cache| == old(room + |cache|)
      ensures FindableKids(disk.fs, old(cache)[cur].backing)
      ensures var k := FindChild(disk.fs, old(cache)[cur].backing, token);
              if old(room) == 0 then res == -ENOMEM && next == cur && cache == old(cache)
              else if k == None then res == (if last then ONE_LEVEL_AWAY else -ENOENT) && next == cur &&
                                     cache == old(cache)
              else res == 0 && next == |old(cache)| && k.value < |disk.fs| &&
                   cache == Linked(disk.fs, old(cache), cur, k.value)
    {
      locks := locks[cur := locks[cur] - 1];
      locks := locks[cur := -1];
      var k := disk.Search(cache[cur].backing, token);
      if room == 0 || k == None {
        locks := locks[cur := 1];
        return if room == 0 then -ENOMEM else if last then ONE_LEVEL_AWAY else -ENOENT, cur;
      }
      LinkKeepsCache(disk.fs, cache, cur, k.value, token);
      next := |cache|;
      cache, room, locks := Linked(disk.fs, cache, cur, k.value), room - 1, locks + [1];
      locks := locks[cur := 0];
      return 0, next;
    }

    /** fscache_request_node and the release of the node it ends on. */
    method RequestNode(path: string, uid: nat) returns (out: Outcome)
      requires Valid()
      modifies this`cache, this`room, this`locks
      ensures Valid() && (Now(), out) == LookedUp(old(Now()), path, uid)
    {
      if path == "" {
        return Returns(-EINVAL, 0);
      }
      if locks[0] < 0 {
        return Hangs;
      }
      CachedWalkIsPlain(disk.fs, cache, room, 0, P.Components(path), EndsWithSlash(path), uid);
      locks := locks[0 := locks[0] + 1];
      var res, node, climbed := WalkTokens(path, uid);
      locks := locks[node := locks[node] - 1];
      assert locks == LocksAfter(|cache|, climbed);
      return Returns(res, node);
    }

    /** The loop over the tokens. */
    method WalkTokens(path: string, uid: nat) returns (res: int, node: nat, climbed: bool)
      requires BothOk(disk.fs, cache) && path != "" && OneHeld(locks, |cache|, 0)
      modifies this`cache, this`room, this`locks
      ensures BothOk(disk.fs, cache) && node < |cache|
      ensures if climbed then locks == LocksAfter(|cache|, false) && node == 0 else OneHeld(locks, |cache|, node)
      ensures Walked(cache, room, res, node, climbed) ==
              CWalk(disk.fs, old(cache), old(room), 0, P.Components(path), EndsWithSlash(path), uid)
    {
      var token := 0;
      node := 0;
      ghost var trailing := EndsWithSlash(path);
      ghost var all := CWalk(disk.fs, cache, room, 0, P.Components(path), trailing, uid);
      assert path[0..] == path;
      while token < |path|
        invariant token <= |path| && BothOk(disk.fs, cache) && OneHeld(locks, |cache|, node)
        invariant CWalk(disk.fs, cache, room, node, P.Components(path[token..]), trailing, uid) == all
        decreases |path| - token
      {
        var start := P.SkipSlashes(path, token);
        if start == |path| {
          token := start;
          break;
        }
        var end := NextSlash(path, start);
        OneComponent(path, start, end);
        res, node, climbed := Descend(node, path[start..end], end == |path|, uid);
        if res != 0 {
          return;
        }
        token := end;
      }
      assert path[token..] == "";
      if cache[node].kind != DT_DIR && path[|path| - 1] == '/' {
        return -ENOTDIR, node, false;
      }
      return 0, node, false;
    }
  }

  /** Equal up to the token's length and ending there is equal. */
  lemma WholeToken(name: string, token: string)
    ensures StrnEq(name, token, |token|) && |name| == |token| <==> name == token
  {
    if StrnEq(name, token, |token|) && |name| == |token| {
      assert forall i :: 0 <= i < |name| ==> name[i] == token[i];
    }
  }

  lemma CFindStep(cache: Cache, kids: seq<nat>, k: nat, name: string)
    requires KidsInCache(cache, kids) && k < |kids|
    ensures CFind(cache, kids[k..], name) ==
            if cache[kids[k]].name == name then Some(kids[k]) else CFind(cache, kids[k + 1..], name)
  {
    assert kids[k..][1..] == kids[k + 1..];
  }

  method NextSlash(path: string, start: nat) returns (end: nat)
    requires start < |path| && path[start] != '/'
    ensures P.PieceAt(path, start, end)
  {
    end := start;
    while end < |path| && path[end] != '/'
      invariant start <= end <= |path| && forall x :: start <= x < end ==> path[x] != '/'
    {
      end := end + 1;
    }
  }

  lemma OneComponent(path: string, start: nat, end: nat)
    requires P.PieceAt(path, start, end)
    ensures P.Components(path[start..]) == [path[start..end]] + P.Components(path[end..]) && path[start..end] != ""
    ensures end == |path| <==> P.Components(path[end..]) == [] && !EndsWithSlash(path)
  {
    var j := P.HeadComponent(path, start, []);
    assert j == end;
    if end < |path| {
      if P.Components(path[end..]) == [] {
        OnlySlashes(path[end..]);
      }
      assert path[end..][|path| - end - 1] == path[|path| - 1];
    } else {
      assert path[end..] == "";
    }
  }

  lemma {:induction false} OnlySlashes(s: string)
    requires s != "" && P.Components(s) == []
    ensures s[|s| - 1] == '/'
    decreases |s|
  {
    if |s| > 1 {
      OnlySlashes(s[1..]);
    }
  }

  // ---- chdir ----

  /** With a trailing slash the walk goes the same way, but does not accept anything but a directory. */
  lemma {:induction false} TrailingSlash(fs: Fs, cur: nat, comps: seq<string>, uid: nat)
    requires FsOk(fs) && cur < |fs| && Walk(fs, cur, comps, false, uid).code == 0
    ensures var w, w' := Walk(fs, cur, comps, false, uid), Walk(fs, cur, comps, true, uid);
            w'.node == w.node && w'.code == if fs[w.node].kind == DT_DIR then 0 else -ENOTDIR
    decreases |comps|
  {
    if comps != [] {
      var r := PlainStep(fs, cur, comps[0], |comps| == 1, uid);
      assert r.On? && PlainStep(fs, cur, comps[0], false, uid) == r;
      TrailingSlash(fs, r.next, comps[1..], uid);
    }
  }

  /** A path that is found names a directory if and only if it is also found with a slash behind it. */
  lemma DirectoryIffSlashAccepted(fs: Fs, path: string, uid: nat)
    requires FsOk(fs) && PlainLookup(fs, path, uid).code == 0
    ensures PlainLookup(fs, path, uid).node < |fs|
    ensures fs[PlainLookup(fs, path, uid).node].kind == DT_DIR <==> PlainLookup(fs, path + "/", uid).code == 0
  {
    P.ComponentsOfAppend(path, "/");
    assert P.Components("/") == [] && P.Components(path) + [] == P.Components(path);
    if !EndsWithSlash(path) {
      TrailingSlash(fs, 0, P.Components(path), uid);
    } else {
      AcceptedSlashIsDirectory(fs, 0, P.Components(path), uid);
    }
  }

  lemma {:induction false} AcceptedSlashIsDirectory(fs: Fs, cur: nat, comps: seq<string>, uid: nat)
    requires FsOk(fs) && cur < |fs| && Walk(fs, cur, comps, true, uid).code == 0
    ensures fs[Walk(fs, cur, comps, true, uid).node].kind == DT_DIR
    decreases |comps|
  {
    if comps != [] {
      AcceptedSlashIsDirectory(fs, PlainStep(fs, cur, comps[0], false, uid).next, comps[1..], uid);
    }
  }

  /** What the lookup in syscall_routine_chdir returns over this tree. */
  ghost function LookupCode(fs: Fs, uid: nat): string -> int
    requires FsOk(fs)
  {
    (path: string) => PlainLookup(fs, path, uid).code
  }

  /**
    chdir does not test the type of what it finds: after a successful call the working directory
    names a directory if and only if the new path would also be found with a slash behind it.
   */
  lemma CwdIsDirectoryIff(fs: Fs, cwd: string, rel: string, uid: nat)
    requires FsOk(fs) && P.Changed(cwd, rel, LookupCode(fs, uid)).1 == 0
    ensures var cwd' := P.Changed(cwd, rel, LookupCode(fs, uid)).0;
            && PlainLookup(fs, cwd', uid).code == 0 && PlainLookup(fs, cwd', uid).node < |fs|
            && (fs[PlainLookup(fs, cwd', uid).node].kind == DT_DIR <==> PlainLookup(fs, cwd' + "/", uid).code == 0)
  {
    DirectoryIffSlashAccepted(fs, P.Changed(cwd, rel, LookupCode(fs, uid)).0, uid);
  }

  lemma LooksUpName(fs: Fs, name: string, k: nat, uid: nat)
    requires FsOk(fs) && P.Plain(name) && FindableKids(fs, 0) && FindChild(fs, 0, name) == Some(k) && k < |fs|
    requires MayExecute(fs[0].mode, fs[0].uid, uid)
    ensures PlainLookup(fs, "/" + name, uid) == Ended(0, k, false)
  {
    P.NameInRoot(name);
    var path := "/" + name;
    assert path[|path| - 1] == name[|name| - 1];
    assert [name][1..] == [];
    assert Walk(fs, k, [], false, uid) == Ended(0, k, false);
  }

  /** Every file in the root directory can become the working directory. */
  lemma ChdirToFile(fs: Fs, name: string, k: nat, uid: nat)
    requires FsOk(fs) && P.Plain(name) && |name| + 3 <= P.PATH_MAX && FindableKids(fs, 0) &&
             FindChild(fs, 0, name) == Some(k)
    requires k < |fs| && fs[k].kind != DT_DIR && MayExecute(fs[0].mode, fs[0].uid, uid)
    ensures P.Changed("/", name, LookupCode(fs, uid)) == ("/" + name, 0) && PlainLookup(fs, "/" + name, uid).node == k
  {
    P.NameInRoot(name);
    LooksUpName(fs, name, k, uid);
  }
}
