/**
  What a path lookup over kernelfs means: which node it ends on and why it stops there.  Module
  CacheLookup shows that the lookup through the cache answers as the plain walk does.
 */
module LookupMeaning {
  import opened Common
  import opened KernelFs
  import opened CacheLookup
  import P = PathNormalise

  /** The names on the way from the root down to node n. */
  ghost predicate Spelled(fs: Fs, names: seq<string>, n: nat)
    decreases |names|
  {
    n < |fs| &&
    if names == [] then n == 0
    else
      && fs[n].parent.Some? && fs[n].name == names[|names| - 1]
      && Spelled(fs, names[..|names| - 1], fs[n].parent.value)
  }

  // ---- who may pass a directory ----

  /** The four octal digits of a mode: the special bits, the owner's, the group's and the others'. */
  predicate ModeIs(mode: nat, special: nat, user: nat, group: nat, other: nat) {
    user < 8 && group < 8 && other < 8 && mode == 512 * special + 64 * user + 8 * group + other
  }

  /**
    A directory is closed to its owner when the owner's digit is even, to root when all three digits
    are, and to everybody else when the last digit is; the group's digit alone opens it to root only.
   */
  lemma ClosedTo(fs: Fs, cur: nat, c: string, last: bool, uid: nat, special: nat, user: nat, group: nat, other: nat)
    requires FsOk(fs) && cur < |fs| && fs[cur].kind == DT_DIR && ModeIs(fs[cur].mode, special, user, group, other)
    ensures PlainStep(fs, cur, c, last, uid) == Stop(-EACCES, false) <==>
              if uid == 0 then user % 2 == 0 && group % 2 == 0 && other % 2 == 0
              else if uid == fs[cur].uid then user % 2 == 0 else other % 2 == 0
  {
    var mode := fs[cur].mode;
    assert mode / 64 == 8 * special + user && mode / 8 == 64 * special + 8 * user + group;
    assert mode / 64 % 2 == user % 2 && mode / 8 % 2 == group % 2 && mode % 2 == other % 2;
    assert NodeOk(fs, cur);
  }

  // ---- where a walk ends, and why ----

  lemma StepSpells(fs: Fs, names: seq<string>, cur: nat, c: string, last: bool, uid: nat)
    requires FsOk(fs) && Spelled(fs, names, cur) && PlainStep(fs, cur, c, last, uid).On?
    ensures Spelled(fs, P.Push(names, c), PlainStep(fs, cur, c, last, uid).next)
  {
    assert NodeOk(fs, cur);
    if c != "." && c != ".." {
      var names' := names + [c];
      assert names'[..|names'| - 1] == names;
    }
  }

  /** Why component c stops the walk at node n with this code. */
  ghost predicate Stops(fs: Fs, n: nat, c: string, last: bool, uid: nat, code: int, climbed: bool)
    requires n < |fs|
  {
    if fs[n].kind != DT_DIR then code == -ENOTDIR && !climbed
    else if !MayExecute(fs[n].mode, fs[n].uid, uid) then code == -EACCES && !climbed
    else if c == ".." then n == 0 && code == -ENOENT && climbed
    else
      && c != "." && !climbed && code == (if last then ONE_LEVEL_AWAY else -ENOENT)
      && forall k :: 0 <= k < |fs[n].children| ==> fs[n].children[k] < |fs| && fs[fs[n].children[k]].name != c
  }

  lemma StepStops(fs: Fs, cur: nat, c: string, last: bool, uid: nat)
    requires FsOk(fs) && cur < |fs|
    ensures var r := PlainStep(fs, cur, c, last, uid); r.Stop? ==> Stops(fs, cur, c, last, uid, r.code, r.climbed)
  {
    assert NodeOk(fs, cur);
  }

  /**
    A walk that has consumed k components ends on the node whose own path they resolve to.  It goes on
    to the end unless component k stops it, and then for one of four reasons.
   */
  lemma {:induction false} WalkEnds(fs: Fs, names: seq<string>, cur: nat, comps: seq<string>, trailing: bool, uid: nat)
    returns (k: nat)
    requires FsOk(fs) && Spelled(fs, names, cur)
    ensures k <= |comps|
    ensures var w := Walk(fs, cur, comps, trailing, uid);
            && Spelled(fs, P.Resolve(names, comps[..k]), w.node)
            && (k < |comps| ==> Stops(fs, w.node, comps[k], k == |comps| - 1 && !trailing, uid, w.code, w.climbed))
            && (k == |comps| ==>
                  !w.climbed && w.code == if trailing && fs[w.node].kind != DT_DIR then -ENOTDIR else 0)
    decreases |comps|
  {
    k := 0;
    if comps != [] {
      var last := |comps| == 1 && !trailing;
      var r := PlainStep(fs, cur, comps[0], last, uid);
      StepStops(fs, cur, comps[0], last, uid);
      if r.On? {
        StepSpells(fs, names, cur, comps[0], last, uid);
        var j := WalkEnds(fs, P.Push(names, comps[0]), r.next, comps[1..], trailing, uid);
        k := j + 1;
        assert comps[..k][1..] == comps[1..][..j];
      }
    }
  }

  /**
    A lookup that succeeds reaches the node whose own path is the given one with "." and ".." resolved;
    one that finds everything but the last name reaches the directory that name is missing from.
   */
  lemma LookupReaches(fs: Fs, path: string, uid: nat)
    requires FsOk(fs)
    ensures var p, comps := PlainLookup(fs, path, uid), P.Components(path);
            && (p.code == 0 ==> Spelled(fs, P.Resolve([], comps), p.node))
            && (p.code == ONE_LEVEL_AWAY ==>
                  && comps != [] && Spelled(fs, P.Resolve([], comps[..|comps| - 1]), p.node)
                  && fs[p.node].kind == DT_DIR && !EndsWithSlash(path)
                  && forall k :: 0 <= k < |fs[p.node].children| ==>
                       fs[p.node].children[k] < |fs| && fs[fs[p.node].children[k]].name != comps[|comps| - 1])
  {
    if path != "" {
      var comps := P.Components(path);
      var k := WalkEnds(fs, [], 0, comps, EndsWithSlash(path), uid);
      assert comps[..|comps|] == comps;
    }
  }

  /** What is found under a normalised path has that path. */
  lemma NormalIsOwnPath(fs: Fs, path: string, uid: nat) returns (names: seq<string>)
    requires FsOk(fs) && PlainLookup(fs, P.Normal(path), uid).code == 0
    ensures P.Rendered(names) == P.Normal(path) && Spelled(fs, names, PlainLookup(fs, P.Normal(path), uid).node)
  {
    names := P.Resolve([], P.Components(path));
    P.NormalStack(path);
    P.NormalComponents(names);
    P.ResolvePlain([], names);
    assert [] + names == names;
    LookupReaches(fs, P.Normal(path), uid);
  }

  /** After a successful chdir the working directory is the own path of the node it names. */
  lemma CwdIsOwnPath(fs: Fs, cwd: string, rel: string, uid: nat) returns (names: seq<string>)
    requires FsOk(fs) && P.Changed(cwd, rel, LookupCode(fs, uid)).1 == 0
    ensures var cwd' := P.Changed(cwd, rel, LookupCode(fs, uid)).0;
            P.Rendered(names) == cwd' && Spelled(fs, names, PlainLookup(fs, cwd', uid).node)
  {
    names := NormalIsOwnPath(fs, P.AbsoluteOf(rel, cwd).path, uid);
  }
}
