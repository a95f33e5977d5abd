/** Removal and rotation in the binary search trees of src/lib/structures/bstree.c. */
module BinarySearchTree {
  datatype Node = Node(left: nat, right: nat, data: nat) // bstnode_t; 0 is the null pointer

  type Store = map<nat, Node>
  type Key = nat -> int // what the tree's cmp compares data by

  datatype Tree = Leaf | Branch(id: nat, left: Tree, data: nat, right: Tree)

  datatype Dir = L | R

  // ---- trees as values ----

  function Root(t: Tree): nat {
    if t.Leaf? then 0 else t.id
  }

  function InOrder(t: Tree): seq<nat> {
    if t.Leaf? then [] else InOrder(t.left) + [t.data] + InOrder(t.right)
  }

  ghost predicate AllBelow(s: seq<nat>, k: int, key: Key) {
    forall i :: 0 <= i < |s| ==> key(s[i]) < k
  }

  ghost predicate AllFrom(s: seq<nat>, k: int, key: Key) {
    forall i :: 0 <= i < |s| ==> k <= key(s[i])
  }

  /** left < parent <= right */
  ghost predicate Ordered(t: Tree, key: Key) {
    t.Leaf? ||
    (Ordered(t.left, key) && Ordered(t.right, key) &&
     AllBelow(InOrder(t.left), key(t.data), key) && AllFrom(InOrder(t.right), key(t.data), key))
  }

  function MinData(t: Tree): nat
    requires t.Branch?
  {
    if t.left.Leaf? then t.data else MinData(t.left)
  }

  function MinId(t: Tree): nat
    requires t.Branch?
  {
    if t.left.Leaf? then t.id else MinId(t.left)
  }

  function WithoutMin(t: Tree): Tree
    requires t.Branch?
  {
    if t.left.Leaf? then t.right else t.(left := WithoutMin(t.left))
  }

  function MaxData(t: Tree): nat
    requires t.Branch?
  {
    if t.right.Leaf? then t.data else MaxData(t.right)
  }

  function MaxId(t: Tree): nat
    requires t.Branch?
  {
    if t.right.Leaf? then t.id else MaxId(t.right)
  }

  function WithoutMax(t: Tree): Tree
    requires t.Branch?
  {
    if t.right.Leaf? then t.left else t.(right := WithoutMax(t.right))
  }

  /** bstree_remove_node: the in-order successor takes the root's place. */
  function WithoutRoot(t: Tree): Tree
    requires t.Branch?
  {
    if t.right.Leaf? then t.left
    else if t.left.Leaf? then t.right
    else Branch(MinId(t.right), t.left, MinData(t.right), WithoutMin(t.right))
  }

  /** bstree_remove_exact_data */
  function Without(t: Tree, data: nat, key: Key): Tree {
    if t.Leaf? then t
    else if t.data == data then WithoutRoot(t)
    else if key(data) < key(t.data) then t.(left := Without(t.left, data, key))
    else t.(right := Without(t.right, data, key))
  }

  /** Whether the search for data ends at a node. */
  predicate Found(t: Tree, data: nat, key: Key) {
    t.Branch? &&
    (t.data == data || if key(data) < key(t.data) then Found(t.left, data, key) else Found(t.right, data, key))
  }

  // ---- in-order sequences ----

  lemma {:induction false} MinIsFirst(t: Tree)
    requires t.Branch?
    ensures InOrder(t) == [MinData(t)] + InOrder(WithoutMin(t))
  {
    if t.left.Branch? {
      MinIsFirst(t.left);
    }
  }

  lemma {:induction false} MaxIsLast(t: Tree)
    requires t.Branch?
    ensures InOrder(t) == InOrder(WithoutMax(t)) + [MaxData(t)]
  {
    if t.right.Branch? {
      MaxIsLast(t.right);
    }
  }

  lemma RootGoes(t: Tree)
    requires t.Branch?
    ensures InOrder(WithoutRoot(t)) == InOrder(t.left) + InOrder(t.right)
  {
    if t.right.Branch? {
      MinIsFirst(t.right);
    }
  }

  /** Removing by data pointer deletes that one element from the in-order sequence. */
  lemma {:induction false} RemovalDeletesOne(t: Tree, data: nat, key: Key) returns (i: nat)
    requires Found(t, data, key)
    ensures i < |InOrder(t)| && InOrder(t)[i] == data &&
            InOrder(Without(t, data, key)) == InOrder(t)[..i] + InOrder(t)[i + 1..]
    decreases t
  {
    var l, r := InOrder(t.left), InOrder(t.right);
    if t.data == data {
      RootGoes(t);
      i := |l|;
    } else if key(data) < key(t.data) {
      var j := RemovalDeletesOne(t.left, data, key);
      i := j;
    } else {
      var j := RemovalDeletesOne(t.right, data, key);
      i := |l| + 1 + j;
      assert InOrder(t)[..i] == l + [t.data] + r[..j] && InOrder(t)[i + 1..] == r[j + 1..];
    }
  }

  lemma {:induction false} NotFoundUnchanged(t: Tree, data: nat, key: Key)
    requires !Found(t, data, key)
    ensures Without(t, data, key) == t
  {
    if t.Branch? {
      if key(data) < key(t.data) {
        NotFoundUnchanged(t.left, data, key);
      } else {
        NotFoundUnchanged(t.right, data, key);
      }
    }
  }

  /** In an ordered tree the search finds data exactly when it is there, duplicates of its key or not. */
  lemma {:induction false} FoundIffPresent(t: Tree, data: nat, key: Key)
    requires Ordered(t, key)
    ensures Found(t, data, key) <==> data in InOrder(t)
  {
    if t.Branch? {
      FoundIffPresent(t.left, data, key);
      FoundIffPresent(t.right, data, key);
    }
  }

  // ---- order ----

  lemma {:induction false} MinKeepsOrder(t: Tree, key: Key)
    requires t.Branch? && Ordered(t, key)
    ensures Ordered(WithoutMin(t), key) && AllFrom(InOrder(WithoutMin(t)), key(MinData(t)), key)
  {
    MinIsFirst(t);
    if t.left.Branch? {
      MinKeepsOrder(t.left, key);
      MinIsFirst(t.left);
      assert key(InOrder(t.left)[0]) < key(t.data);
      PartBelow(InOrder(t.left), 1, key(t.data), key);
    }
  }

  lemma PartBelow(s: seq<nat>, i: nat, k: int, key: Key)
    requires AllBelow(s, k, key) && i <= |s|
    ensures AllBelow(s[i..], k, key) && AllBelow(s[..i], k, key)
  {
  }

  lemma RootKeepsOrder(t: Tree, key: Key)
    requires t.Branch? && Ordered(t, key)
    ensures Ordered(WithoutRoot(t), key)
  {
    if t.right.Branch? && t.left.Branch? {
      MinKeepsOrder(t.right, key);
      MinIsFirst(t.right);
      assert key(t.data) <= key(InOrder(t.right)[0]);
    }
  }

  lemma {:induction false} RemovalKeepsOrder(t: Tree, data: nat, key: Key)
    requires Ordered(t, key)
    ensures Ordered(Without(t, data, key), key)
  {
    if t.Branch? {
      if t.data == data {
        RootKeepsOrder(t, key);
      } else if key(data) < key(t.data) {
        RemovalKeepsOrder(t.left, data, key);
        if Found(t.left, data, key) {
          var i := RemovalDeletesOne(t.left, data, key);
        } else {
          NotFoundUnchanged(t.left, data, key);
        }
      } else {
        RemovalKeepsOrder(t.right, data, key);
        if Found(t.right, data, key) {
          var i := RemovalDeletesOne(t.right, data, key);
        } else {
          NotFoundUnchanged(t.right, data, key);
        }
      }
    }
  }

  lemma {:induction false} MaxKeepsOrder(t: Tree, key: Key)
    requires t.Branch? && Ordered(t, key)
    ensures Ordered(WithoutMax(t), key)
  {
    if t.right.Branch? {
      MaxKeepsOrder(t.right, key);
      MaxIsLast(t.right);
      var rest := InOrder(WithoutMax(t.right));
      assert forall i :: 0 <= i < |rest| ==> InOrder(t.right)[i] == rest[i];
    }
  }

  // ---- rotations ----

  function RotatedLeft(t: Tree): Tree {
    if t.Leaf? || t.right.Leaf? then t
    else t.right.(left := t.(right := t.right.left))
  }

  function RotatedRight(t: Tree): Tree {
    if t.Leaf? || t.left.Leaf? then t
    else t.left.(right := t.(left := t.left.right))
  }

  /** Rotations keep the in-order sequence. */
  lemma RotationsKeepSequence(t: Tree)
    ensures InOrder(RotatedLeft(t)) == InOrder(t) && InOrder(RotatedRight(t)) == InOrder(t)
  {
    if t.Branch? {
      if t.right.Branch? {
        var a, b, c := InOrder(t.left), InOrder(t.right.left), InOrder(t.right.right);
        assert a + [t.data] + (b + [t.right.data] + c) == a + [t.data] + b + [t.right.data] + c;
      }
      if t.left.Branch? {
        var a, b, c := InOrder(t.left.left), InOrder(t.left.right), InOrder(t.right);
        assert a + [t.left.data] + b + [t.data] + c == a + [t.left.data] + (b + [t.data] + c);
      }
    }
  }

  /** A rotation makes the child the root and the root its other child, and the opposite rotation undoes it. */
  lemma RotationsUndoEachOther(t: Tree)
    requires t.Branch?
    ensures t.right.Branch? ==>
              && Root(RotatedLeft(t)) == Root(t.right) && Root(RotatedLeft(t).left) == Root(t)
              && RotatedRight(RotatedLeft(t)) == t
    ensures t.left.Branch? ==>
              && Root(RotatedRight(t)) == Root(t.left) && Root(RotatedRight(t).right) == Root(t)
              && RotatedLeft(RotatedRight(t)) == t
  {
  }

  /** A right rotation keeps the order; a left one does exactly if the two keys it swaps differ. */
  lemma RotationsAndOrder(t: Tree, key: Key)
    requires Ordered(t, key)
    ensures Ordered(RotatedRight(t), key)
    ensures Ordered(RotatedLeft(t), key) <==> t.Leaf? || t.right.Leaf? || key(t.data) != key(t.right.data)
  {
    if t.Branch? && t.right.Branch? {
      RotateLeftOrder(t, key);
    }
    if t.Branch? && t.left.Branch? {
      RotateRightOrder(t, key);
    }
  }

  lemma RotateLeftOrder(t: Tree, key: Key)
    requires Ordered(t, key) && t.Branch? && t.right.Branch?
    ensures Ordered(RotatedLeft(t), key) <==> key(t.data) != key(t.right.data)
  {
    var x, y, b := t.data, t.right.data, InOrder(t.right.left);
    var all := InOrder(t.right);
    assert all[|b|] == y;
    assert forall i :: 0 <= i < |b| ==> all[i] == b[i];
    var l := InOrder(RotatedLeft(t).left);
    assert l[|InOrder(t.left)|] == x;
    assert key(x) == key(y) ==> !AllBelow(l, key(y), key);
  }

  lemma RotateRightOrder(t: Tree, key: Key)
    requires Ordered(t, key) && t.Branch? && t.left.Branch?
    ensures Ordered(RotatedRight(t), key)
  {
    var y, a, c, r := t.left.data, InOrder(t.left.left), InOrder(t.left.right), InOrder(t.right);
    PartsBelow(a, y, c, key(t.data), key);
    var x := t.(left := t.left.right);
    assert Ordered(x, key) && InOrder(x) == c + [t.data] + r;
    JoinFrom(c, t.data, r, key(y), key);
  }

  lemma JoinFrom(c: seq<nat>, x: nat, r: seq<nat>, k: int, key: Key)
    requires AllFrom(c, k, key) && k <= key(x) && AllFrom(r, key(x), key)
    ensures AllFrom(c + [x] + r, k, key)
  {
  }

  lemma PartsBelow(a: seq<nat>, y: nat, c: seq<nat>, k: int, key: Key)
    requires AllBelow(a + [y] + c, k, key)
    ensures key(y) < k && AllBelow(c, k, key)
  {
    var all := a + [y] + c;
    assert all[|a|] == y;
    forall i | 0 <= i < |c|
      ensures key(c[i]) < k
    {
      assert all[|a| + 1 + i] == c[i];
    }
  }

  // ---- trees in the store ----

  predicate In(t: Tree, id: nat) {
    t.Branch? && (t.id == id || In(t.left, id) || In(t.right, id))
  }

  /** No node occurs twice. */
  ghost predicate Apart(t: Tree) {
    t.Leaf? ||
    (!In(t.left, t.id) && !In(t.right, t.id) && (forall x :: In(t.left, x) ==> !In(t.right, x)) && Apart(t.left) &&
     Apart(t.right))
  }

  /** The nodes of t are in the store as t says. */
  predicate Rep(nodes: Store, t: Tree) {
    t.Leaf? ||
    (t.id != 0 && t.id in nodes && nodes[t.id] == Node(Root(t.left), Root(t.right), t.data) && Rep(nodes, t.left) &&
     Rep(nodes, t.right))
  }

  lemma {:induction false} RepFrame(nodes: Store, nodes': Store, t: Tree)
    requires Rep(nodes, t) && forall x :: In(t, x) && x in nodes ==> x in nodes' && nodes'[x] == nodes[x]
    ensures Rep(nodes', t)
  {
    if t.Branch? {
      RepFrame(nodes, nodes', t.left);
      RepFrame(nodes, nodes', t.right);
    }
  }

  function MinParent(t: Tree): nat
    requires t.Branch? && t.left.Branch?
  {
    if t.left.left.Leaf? then t.id else MinParent(t.left)
  }

  lemma {:induction false} MinFacts(nodes: Store, t: Tree)
    requires t.Branch? && Rep(nodes, t) && Apart(t)
    ensures In(t, MinId(t)) && MinId(t) != 0 && MinId(t) in nodes && nodes[MinId(t)].data == MinData(t) &&
            nodes[MinId(t)].left == 0
    ensures Apart(WithoutMin(t)) && forall x :: In(WithoutMin(t), x) <==> In(t, x) && x != MinId(t)
  {
    if t.left.Branch? {
      MinFacts(nodes, t.left);
    }
  }

  /** Unhooking the least node from its parent leaves the tree without it. */
  lemma {:induction false} MinUnhooked(nodes: Store, t: Tree)
    requires t.Branch? && t.left.Branch? && Rep(nodes, t) && Apart(t)
    ensures var p, m := MinParent(t), MinId(t);
            && In(t, p) && p != m && p != 0 && p in nodes && m in nodes
            && Rep(nodes[p := nodes[p].(left := nodes[m].right)], WithoutMin(t))
  {
    var p, m := MinParent(t), MinId(t);
    if t.left.left.Leaf? {
      assert MinId(t) == MinId(t.left) && MinId(t.left) == t.left.id;
      var nodes' := nodes[p := nodes[p].(left := nodes[m].right)];
      RepFrame(nodes, nodes', t.left.right);
      RepFrame(nodes, nodes', t.right);
    } else {
      MinUnhooked(nodes, t.left);
      var nodes' := nodes[p := nodes[p].(left := nodes[m].right)];
      RepFrame(nodes, nodes', t.right);
      assert Root(WithoutMin(t.left)) == Root(t.left);
    }
  }

  lemma RootlessFacts(nodes: Store, t: Tree)
    requires t.Branch? && Rep(nodes, t) && Apart(t)
    ensures Apart(WithoutRoot(t)) && forall x :: In(WithoutRoot(t), x) <==> In(t, x) && x != t.id
  {
    if t.right.Branch? {
      MinFacts(nodes, t.right);
    }
  }

  // ---- subtrees along a path ----

  predicate OnPath(t: Tree, path: seq<Dir>) {
    path == [] || (t.Branch? && OnPath(if path[0] == L then t.left else t.right, path[1..]))
  }

  function Sub(t: Tree, path: seq<Dir>): Tree
    requires OnPath(t, path)
  {
    if path == [] then t else Sub(if path[0] == L then t.left else t.right, path[1..])
  }

  function PutAt(t: Tree, path: seq<Dir>, s: Tree): Tree
    requires OnPath(t, path)
  {
    if path == [] then s
    else if path[0] == L then t.(left := PutAt(t.left, path[1..], s))
    else t.(right := PutAt(t.right, path[1..], s))
  }

  lemma {:induction false} PathSnoc(t: Tree, path: seq<Dir>, d: Dir, s: Tree)
    requires OnPath(t, path) && Sub(t, path).Branch?
    ensures var c := Sub(t, path);
            && OnPath(t, path + [d]) && Sub(t, path + [d]) == (if d == L then c.left else c.right)
            && PutAt(t, path + [d], s) == PutAt(t, path, if d == L then c.(left := s) else c.(right := s))
    decreases |path|
  {
    if path == [] {
      assert path + [d] == [d] && [d][1..] == [];
    } else {
      PathSnoc(if path[0] == L then t.left else t.right, path[1..], d, s);
      assert (path + [d])[1..] == path[1..] + [d];
    }
  }

  lemma {:induction false} SubFacts(nodes: Store, t: Tree, path: seq<Dir>)
    requires OnPath(t, path) && Rep(nodes, t) && Apart(t)
    ensures Rep(nodes, Sub(t, path)) && Apart(Sub(t, path)) && forall x :: In(Sub(t, path), x) ==> In(t, x)
    decreases |path|
  {
    if path != [] {
      SubFacts(nodes, if path[0] == L then t.left else t.right, path[1..]);
    }
  }

  /** A subtree has been rebuilt elsewhere in the store; its parent's link is all that must change. */
  lemma {:induction false} Spliced(nodes: Store, nodes': Store, t: Tree, path: seq<Dir>, d: Dir, s: Tree)
    requires OnPath(t, path) && Sub(t, path).Branch? && Rep(nodes, t) && Apart(t) && Rep(nodes', s)
    requires var c := Sub(t, path);
             var old' := if d == L then c.left else c.right;
             && c.id in nodes && c.id in nodes'
             && nodes'[c.id] == (if d == L then nodes[c.id].(left := Root(s)) else nodes[c.id].(right := Root(s)))
             && forall x :: In(t, x) && !In(old', x) && x != c.id && x in nodes ==> x in nodes' && nodes'[x] == nodes[x]
    ensures Rep(nodes', PutAt(t, path, if d == L then Sub(t, path).(left := s) else Sub(t, path).(right := s)))
    decreases |path|
  {
    if path == [] {
      RepFrame(nodes, nodes', if d == L then t.right else t.left);
    } else {
      var next, other := if path[0] == L then t.left else t.right, if path[0] == L then t.right else t.left;
      SubFacts(nodes, next, path[1..]);
      var c := Sub(next, path[1..]);
      assert In(c, c.id) && In(next, c.id) && t.id != c.id;
      Spliced(nodes, nodes', next, path[1..], d, s);
      RepFrame(nodes, nodes', other);
      var put := if d == L then c.(left := s) else c.(right := s);
      RootKept(next, path[1..], put);
      assert !In(if d == L then c.left else c.right, t.id);
    }
  }

  lemma {:induction false} RootKept(t: Tree, path: seq<Dir>, s: Tree)
    requires OnPath(t, path) && Root(s) == Root(Sub(t, path))
    ensures Root(PutAt(t, path, s)) == Root(t)
  {
  }

  // ---- the code ----

  /** The stores of bstree_remove_node when both subtrees are there: p is the successor's parent, or null. */
  function Promoted(nodes: Store, left: nat, right: nat, p: nat, m: nat): Store
    requires m in nodes && (p != 0 ==> p in nodes)
  {
    var nodes1 := if p != 0 then nodes[p := nodes[p].(left := nodes[m].right)] else nodes;
    var nodes2 := if p != 0 then nodes1[m := nodes1[m].(right := right)] else nodes1;
    nodes2[m := nodes2[m].(left := left)]
  }

  lemma PromotedRep(nodes: Store, t: Tree)
    requires t.Branch? && t.left.Branch? && t.right.Branch? && Rep(nodes, t) && Apart(t)
    ensures var p, m := if t.right.left.Branch? then MinParent(t.right) else 0, MinId(t.right);
            && m in nodes && (p != 0 ==> p in nodes)
            && Rep(Promoted(nodes, Root(t.left), Root(t.right), p, m), WithoutRoot(t))
            && forall x :: !In(t, x) && x in nodes ==> x in Promoted(nodes, Root(t.left), Root(t.right), p, m) &&
                                                       Promoted(nodes, Root(t.left), Root(t.right), p, m)[x] == nodes[x]
  {
    var r, m := t.right, MinId(t.right);
    MinFacts(nodes, r);
    if r.left.Branch? {
      MinUnhooked(nodes, r);
      var p := MinParent(r);
      var nodes1, nodes' := nodes[p := nodes[p].(left := nodes[m].right)], Promoted(nodes, Root(t.left), Root(r), p, m);
      RepFrame(nodes1, nodes', WithoutMin(r));
      RepFrame(nodes, nodes', t.left);
    } else {
      var nodes' := Promoted(nodes, Root(t.left), Root(r), 0, m);
      RepFrame(nodes, nodes', r.right);
      RepFrame(nodes, nodes', t.left);
    }
  }

  class BsTree {
    const key: Key
    var nodes: Store
    var root: nat
    var size: nat
    ghost var tree: Tree

    ghost predicate Valid()
      reads this
    {
      root == Root(tree) && Rep(nodes, tree) && Apart(tree) && size == |InOrder(tree)|
    }

    /** Any tree laid out in a store. */
    constructor (cmp: Key, store: Store, t: Tree)
      requires Rep(store, t) && Apart(t)
      ensures Valid() && key == cmp && tree == t
    {
      key, nodes, root, size, tree := cmp, store, Root(t), |InOrder(t)|, t;
    }

    /** The loop of bstree_remove_node: the successor below `right`, and its parent unless that is the removed node. */
    method Successor(right: nat, ghost r: Tree) returns (p: nat, m: nat)
      requires r.Branch? && right == Root(r) && Rep(nodes, r)
      ensures m == MinId(r) && p == if r.left.Branch? then MinParent(r) else 0
    {
      ghost var s := r;
      p, m := 0, right;
      while nodes[m].left != 0
        invariant s.Branch? && m == Root(s) && Rep(nodes, s) && MinId(s) == MinId(r)
        invariant if p == 0 then s == r
                  else r.left.Branch? && (if s.left.Branch? then MinParent(s) == MinParent(r) else p == MinParent(r))
        decreases s
      {
        p, m := m, nodes[m].left;
        s := s.left;
      }
    }

    /** bstree_remove_node: takes the root out of subtree c and returns what replaces it. */
    method RemoveNode(node: nat, ghost c: Tree) returns (rest: nat)
      requires c.Branch? && node == Root(c) && Rep(nodes, c) && Apart(c) && size > 0
      modifies this`nodes, this`size
      ensures Rep(nodes, WithoutRoot(c)) && rest == Root(WithoutRoot(c)) && size == old(size) - 1
      ensures forall x :: !In(c, x) && x in old(nodes) ==> x in nodes && nodes[x] == old(nodes)[x]
    {
      var left, right := nodes[node].left, nodes[node].right;
      rest := 0;
      if right != 0 {
        rest := right;
        if left != 0 {
          var p, m := Successor(right, c.right);
          PromotedRep(nodes, c);
          nodes := Promoted(nodes, left, right, p, m);
          rest := m;
        }
      } else if left != 0 {
        rest := left;
      }
      size := size - 1;
    }

    /** Take out the node at the end of a descent and hang what replaces it where it hung. */
    method Unlink(curr: nat, parent: nat, ghost path: seq<Dir>)
      requires Valid() && At(tree, path, curr, parent) && Sub(tree, path).Branch?
      modifies this`nodes, this`root, this`size, this`tree
      ensures Valid() && tree == PutAt(old(tree), path, WithoutRoot(Sub(old(tree), path)))
    {
      ghost var t := tree;
      if parent == 0 {
        RootGoes(t);
        RootlessFacts(nodes, t);
        root := RemoveNode(curr, t);
        tree := WithoutRoot(t);
        return;
      }
      ghost var up, d := path[..|path| - 1], path[|path| - 1];
      SubFacts(nodes, t, up);
      ghost var q := Sub(t, up);
      ghost var c := if d == L then q.left else q.right;
      ChildSide(nodes, q, d);
      ChildFacts(nodes, t, up, d);
      PathSnoc(t, up, d, WithoutRoot(c));
      assert up + [d] == path;
      var rest := RemoveNode(curr, c);
      Relink(parent, curr, rest, up, d, old(nodes));
    }

    /** The parent's link to the removed node is the only one that changes. */
    method Relink(parent: nat, curr: nat, rest: nat, ghost up: seq<Dir>, ghost d: Dir, ghost was: Store)
      requires OnPath(tree, up) && Sub(tree, up).Branch? && Rep(was, tree) && Apart(tree) &&
               parent == Sub(tree, up).id && root == Root(tree)
      requires var c := if d == L then Sub(tree, up).left else Sub(tree, up).right;
               && c.Branch? && curr == c.id && Rep(nodes, WithoutRoot(c)) && rest == Root(WithoutRoot(c))
               && (forall x :: !In(c, x) && x in was ==> x in nodes && nodes[x] == was[x]) &&
                  size == |InOrder(tree)| - 1
      modifies this`nodes, this`tree
      ensures Valid()
      ensures var q := Sub(old(tree), up);
              tree == PutAt(old(tree), up,
                            if d == L then q.(left := WithoutRoot(q.left)) else q.(right := WithoutRoot(q.right)))
    {
      ghost var t, q, nodes1 := tree, Sub(tree, up), nodes;
      ghost var c := if d == L then q.left else q.right;
      SubFacts(was, t, up);
      ChildSide(was, q, d);
      ChildFacts(was, t, up, d);
      RootlessFacts(was, c);
      var n := nodes[parent];
      nodes := nodes[parent := if n.left == curr then n.(left := rest) else n.(right := rest)];
      RepFrame(nodes1, nodes, WithoutRoot(c));
      Spliced(was, nodes, t, up, d, WithoutRoot(c));
      tree := PutAt(t, up, if d == L then q.(left := WithoutRoot(c)) else q.(right := WithoutRoot(c)));
    }

    /** bstree_remove_exact_data: the removed node, or null if the search does not meet data. */
    method RemoveExactData(data: nat) returns (curr: nat)
      requires Valid()
      modifies this`nodes, this`root, this`size, this`tree
      ensures Valid() && tree == Without(old(tree), data, key)
      ensures curr != 0 <==> Found(old(tree), data, key)
      ensures curr != 0 ==> In(old(tree), curr) && curr in old(nodes) && old(nodes)[curr].data == data
    {
      var parent := 0;
      curr := root;
      ghost var path: seq<Dir>, t := [], tree;
      while curr != 0
        invariant Valid() && tree == t && nodes == old(nodes) && At(t, path, curr, parent)
        invariant Without(t, data, key) == PutAt(t, path, Without(Sub(t, path), data, key))
        invariant Found(t, data, key) == Found(Sub(t, path), data, key)
        decreases Sub(t, path)
      {
        ghost var c := Sub(t, path);
        SubFacts(nodes, t, path);
        if nodes[curr].data == data {
          Unlink(curr, parent, path);
          return;
        }
        ghost var d := if key(data) < key(c.data) then L else R;
        Deeper(nodes, t, path, curr, parent, d, Without(if d == L then c.left else c.right, data, key));
        parent := curr;
        if key(data) < key(nodes[curr].data) {
          curr := nodes[curr].left;
        } else {
          curr := nodes[curr].right;
        }
        path := path + [d];
      }
      SubFacts(nodes, t, path);
      NotFoundUnchanged(t, data, key);
    }

    /** bstree_remove_first */
    method RemoveFirst() returns (curr: nat)
      requires Valid()
      modifies this`nodes, this`root, this`size, this`tree
      ensures Valid() && (curr == 0 <==> old(tree).Leaf?)
      ensures old(tree).Leaf? ==> tree == old(tree)
      ensures old(tree).Branch? ==> curr == MinId(old(tree)) && tree == WithoutMin(old(tree))
    {
      if root == 0 {
        return 0;
      }
      var parent := 0;
      curr := root;
      ghost var path: seq<Dir>, t := [], tree;
      assert Rep(nodes, t) && curr in nodes;
      while nodes[curr].left != 0
        invariant Valid() && tree == t && nodes == old(nodes) && At(t, path, curr, parent) && Sub(t, path).Branch? &&
                  curr in nodes
        invariant WithoutMin(t) == PutAt(t, path, WithoutMin(Sub(t, path))) && MinId(t) == MinId(Sub(t, path))
        invariant nodes[curr] == Node(Root(Sub(t, path).left), Root(Sub(t, path).right), Sub(t, path).data)
        decreases Sub(t, path)
      {
        ghost var c := Sub(t, path);
        Deeper(nodes, t, path, curr, parent, L, WithoutMin(c.left));
        parent := curr;
        curr := nodes[curr].left;
        path := path + [L];
        SubFacts(nodes, t, path);
      }
      SubFacts(nodes, t, path);
      Unlink(curr, parent, path);
    }

    /** bstree_remove_last */
    method RemoveLast() returns (curr: nat)
      requires Valid()
      modifies this`nodes, this`root, this`size, this`tree
      ensures Valid() && (curr == 0 <==> old(tree).Leaf?)
      ensures old(tree).Leaf? ==> tree == old(tree)
      ensures old(tree).Branch? ==> curr == MaxId(old(tree)) && tree == WithoutMax(old(tree))
    {
      if root == 0 {
        return 0;
      }
      var parent := 0;
      curr := root;
      ghost var path: seq<Dir>, t := [], tree;
      assert Rep(nodes, t) && curr in nodes;
      while nodes[curr].right != 0
        invariant Valid() && tree == t && nodes == old(nodes) && At(t, path, curr, parent) && Sub(t, path).Branch? &&
                  curr in nodes
        invariant WithoutMax(t) == PutAt(t, path, WithoutMax(Sub(t, path))) && MaxId(t) == MaxId(Sub(t, path))
        invariant nodes[curr] == Node(Root(Sub(t, path).left), Root(Sub(t, path).right), Sub(t, path).data)
        decreases Sub(t, path)
      {
        ghost var c := Sub(t, path);
        Deeper(nodes, t, path, curr, parent, R, WithoutMax(c.right));
        parent := curr;
        curr := nodes[curr].right;
        path := path + [R];
        SubFacts(nodes, t, path);
      }
      SubFacts(nodes, t, path);
      Unlink(curr, parent, path);
    }

    /** bstree_left_rotate of a whole subtree. */
    method LeftRotate(node: nat, ghost t: Tree) returns (top: nat)
      requires t.Branch? && node == Root(t) && Rep(nodes, t) && Apart(t)
      modifies this`nodes
      ensures Rep(nodes, RotatedLeft(t)) && top == Root(RotatedLeft(t))
      ensures forall x :: !In(t, x) && x in old(nodes) ==> x in nodes && nodes[x] == old(nodes)[x]
    {
      top := nodes[node].right;
      if top == 0 {
        return node;
      }
      nodes := nodes[node := nodes[node].(right := nodes[top].left)];
      nodes := nodes[top := nodes[top].(left := node)];
      RepFrame(old(nodes), nodes, t.left);
      RepFrame(old(nodes), nodes, t.right.left);
      RepFrame(old(nodes), nodes, t.right.right);
    }

    /** bstree_right_rotate of a whole subtree. */
    method RightRotate(node: nat, ghost t: Tree) returns (top: nat)
      requires t.Branch? && node == Root(t) && Rep(nodes, t) && Apart(t)
      modifies this`nodes
      ensures Rep(nodes, RotatedRight(t)) && top == Root(RotatedRight(t))
      ensures forall x :: !In(t, x) && x in old(nodes) ==> x in nodes && nodes[x] == old(nodes)[x]
    {
      top := nodes[node].left;
      if top == 0 {
        return node;
      }
      nodes := nodes[node := nodes[node].(left := nodes[top].right)];
      nodes := nodes[top := nodes[top].(right := node)];
      RepFrame(old(nodes), nodes, t.right);
      RepFrame(old(nodes), nodes, t.left.left);
      RepFrame(old(nodes), nodes, t.left.right);
    }
  }

  /** Where a descent stands: at subtree c at the end of path, with its parent one step before. */
  ghost predicate At(t: Tree, path: seq<Dir>, curr: nat, parent: nat) {
    && OnPath(t, path) && curr == Root(Sub(t, path)) && (parent == 0 <==> path == [])
    && (path != [] ==>
          var up := path[..|path| - 1];
          && OnPath(t, up) && Sub(t, up).Branch? && parent == Sub(t, up).id
          && Sub(t, path) == if path[|path| - 1] == L then Sub(t, up).left else Sub(t, up).right)
  }

  lemma Deeper(nodes: Store, t: Tree, path: seq<Dir>, curr: nat, parent: nat, d: Dir, s: Tree)
    requires At(t, path, curr, parent) && Rep(nodes, t) && Apart(t) && Sub(t, path).Branch?
    ensures curr != 0 && curr in nodes &&
            nodes[curr] == Node(Root(Sub(t, path).left), Root(Sub(t, path).right), Sub(t, path).data)
    ensures At(t, path + [d], if d == L then nodes[curr].left else nodes[curr].right, curr)
    ensures PutAt(t, path + [d], s) ==
            PutAt(t, path, if d == L then Sub(t, path).(left := s) else Sub(t, path).(right := s))
  {
    SubFacts(nodes, t, path);
    PathSnoc(t, path, d, s);
    assert (path + [d])[..|path + [d]| - 1] == path;
  }

  lemma ChildSide(nodes: Store, q: Tree, d: Dir)
    requires q.Branch? && Rep(nodes, q) && Apart(q)
    ensures var c := if d == L then q.left else q.right;
            c.Branch? ==> !In(c, q.id) && (nodes[q.id].left == c.id <==> d == L)
  {
    if d == R && q.left.Branch? && q.right.Branch? {
      assert In(q.left, q.left.id) && In(q.right, q.right.id);
    }
  }

  lemma {:induction false} PutApart(t: Tree, path: seq<Dir>, s: Tree)
    requires OnPath(t, path) && Apart(t) && Apart(s) && forall x :: In(s, x) ==> In(Sub(t, path), x)
    ensures Apart(PutAt(t, path, s)) && forall x :: In(PutAt(t, path, s), x) ==> In(t, x)
    decreases |path|
  {
    if path != [] {
      PutApart(if path[0] == L then t.left else t.right, path[1..], s);
    }
  }

  lemma {:induction false} PutSize(t: Tree, path: seq<Dir>, s: Tree)
    requires OnPath(t, path)
    ensures |InOrder(PutAt(t, path, s))| == |InOrder(t)| - |InOrder(Sub(t, path))| + |InOrder(s)|
    decreases |path|
  {
    if path != [] {
      PutSize(if path[0] == L then t.left else t.right, path[1..], s);
    }
  }

  /** Taking the root out of a child: fewer nodes by one, and none of them twice. */
  lemma ChildFacts(nodes: Store, t: Tree, path: seq<Dir>, d: Dir)
    requires OnPath(t, path) && Sub(t, path).Branch? && Rep(nodes, t) && Apart(t)
    requires (if d == L then Sub(t, path).left else Sub(t, path).right).Branch?
    ensures var q := Sub(t, path);
            var q' := if d == L then q.(left := WithoutRoot(q.left)) else q.(right := WithoutRoot(q.right));
            var t' := PutAt(t, path, q');
            Apart(t') && |InOrder(t')| == |InOrder(t)| - 1 && Root(t') == Root(t)
  {
    var q := Sub(t, path);
    var c := if d == L then q.left else q.right;
    var q' := if d == L then q.(left := WithoutRoot(c)) else q.(right := WithoutRoot(c));
    SubFacts(nodes, t, path);
    RootlessFacts(nodes, c);
    RootGoes(c);
    PutApart(t, path, q');
    PutSize(t, path, q');
    RootKept(t, path, q');
  }
}
