/** Moving a node of kernel/src/fs/ramfs.c to another directory: what becomes of the tree. */
module RamMove {
  import opened RamTree
  import opened RamPath

  /** Node `m` is `n` or lies below it. */
  ghost predicate Under(ns: seq<Node>, root: nat, depth: seq<nat>, m: nat, n: nat): (b: bool)
    requires Tree(ns, root, depth) && m < |ns| && ns[m].used && n < |ns|
    ensures b ==> depth[n] <= depth[m]
    decreases depth[m]
  {
    assert NodeOk(ns, root, depth, m);
    m == n || (m != root && Under(ns, root, depth, ns[m].parent, n))
  }

  /** After `ramfs_detach_child`. */
  function Unlinked(ns: seq<Node>, p: nat, k: nat): (r: seq<Node>)
    requires p < |ns| && k < |ns[p].children|
    ensures |r| == |ns|
  {
    ns[p := ns[p].(children := ns[p].children[..k] + ns[p].children[k + 1..])]
  }

  /** The `k`-th child of `p` goes to the end of `q`'s list and gets a new name. */
  function Moved(ns: seq<Node>, p: nat, k: nat, q: nat, name: string): (r: seq<Node>)
    requires p < |ns| && k < |ns[p].children| && ns[p].children[k] < |ns| && q < |ns|
    ensures |r| == |ns|
  {
    var n, a := ns[p].children[k], Unlinked(ns, p, k);
    var b := a[q := a[q].(children := a[q].children + [n])];
    b[n := b[n].(parent := q, name := name)]
  }

  ghost predicate CanMove(ns: seq<Node>, root: nat, depth: seq<nat>, p: nat, k: nat, q: nat, name: string) {
    && Tree(ns, root, depth) && p < |ns| && ns[p].used && k < |ns[p].children| && ns[p].children[k] < |ns|
    && q < |ns| && ns[q].used && ns[q].dir && q != p && GoodName(name)
    && forall i :: 0 <= i < |ns[q].children| && ns[q].children[i] < |ns| ==> ns[ns[q].children[i]].name != name
  }

  /** What a move changes in each node. */
  lemma MovedNode(ns: seq<Node>, p: nat, k: nat, q: nat, name: string, m: nat)
    requires p < |ns| && k < |ns[p].children| && ns[p].children[k] < |ns| && q < |ns| && p != q && ns[p].children[k] != p && m < |ns|
    ensures var ns', n := Moved(ns, p, k, q, name), ns[p].children[k];
      && ns'[m].used == ns[m].used && ns'[m].dir == ns[m].dir
      && ns'[m].parent == (if m == n then q else ns[m].parent) && ns'[m].name == (if m == n then name else ns[m].name)
      && ns'[m].children == if m == p then ns[p].children[..k] + ns[p].children[k + 1..]
                            else if m == q then ns[q].children + [n] else ns[m].children
  {
  }

  /** The node that moves is a proper one, and `p` alone lists it, once. */
  lemma Mover(ns: seq<Node>, root: nat, depth: seq<nat>, p: nat, k: nat, q: nat, name: string)
    requires CanMove(ns, root, depth, p, k, q, name)
    ensures var n := ns[p].children[k];
      && n != root && n != p && ns[n].used && ns[n].parent == p && depth[n] == depth[p] + 1
      && n !in Unlinked(ns, p, k)[p].children
      && forall m: nat :: m < |ns| && ns[m].used && m != p ==> n !in ns[m].children
  {
    var n, cs := ns[p].children[k], ns[p].children;
    assert NodeOk(ns, root, depth, p) && ChildOk(ns, root, p, cs[k]) && NodeOk(ns, root, depth, n);
    forall m: nat | m < |ns| && ns[m].used && m != p
      ensures n !in ns[m].children
    {
      assert NodeOk(ns, root, depth, m);
      forall i | 0 <= i < |ns[m].children|
        ensures ns[m].children[i] != n
      {
        assert ChildOk(ns, root, m, ns[m].children[i]);
      }
    }
  }

  // ----- The move that keeps the tree

  ghost function MovedDepth(ns: seq<Node>, root: nat, depth: seq<nat>, n: nat, q: nat): (d: seq<nat>)
    requires Tree(ns, root, depth) && n < |ns| && q < |ns|
    ensures |d| == |ns|
    ensures forall m :: 0 <= m < |ns| && ns[m].used ==>
      d[m] == if Under(ns, root, depth, m, n) then depth[m] - depth[n] + depth[q] + 1 else depth[m]
  {
    seq(|ns|, m requires 0 <= m < |ns| =>
      if ns[m].used && Under(ns, root, depth, m, n) then depth[m] - depth[n] + depth[q] + 1 else depth[m])
  }

  ghost predicate Sensible(ns: seq<Node>, root: nat, depth: seq<nat>, p: nat, k: nat, q: nat, name: string) {
    && CanMove(ns, root, depth, p, k, q, name) && |ns[q].children| < MAX_CHILDREN
    && !Under(ns, root, depth, q, ns[p].children[k])
  }

  lemma MoveKeeps(ns: seq<Node>, root: nat, depth: seq<nat>, p: nat, k: nat, q: nat, name: string)
    requires Sensible(ns, root, depth, p, k, q, name)
    ensures Tree(Moved(ns, p, k, q, name), root, MovedDepth(ns, root, depth, ns[p].children[k], q))
  {
    var ns', depth' := Moved(ns, p, k, q, name), MovedDepth(ns, root, depth, ns[p].children[k], q);
    Mover(ns, root, depth, p, k, q, name);
    assert ns[root].used && ns'[root].used;
    forall m | 0 <= m < |ns'| && ns'[m].used
      ensures NodeOk(ns', root, depth', m)
    {
      MoveUp(ns, root, depth, p, k, q, name, m);
      MoveDown(ns, root, depth, p, k, q, name, m);
    }
    hide NodeOk;
  }

  /** The depths of a node and of its parent change alike. */
  lemma MovedDepths(ns: seq<Node>, root: nat, depth: seq<nat>, p: nat, k: nat, q: nat, name: string, m: nat)
    requires Sensible(ns, root, depth, p, k, q, name) && m < |ns| && ns[m].used
    ensures var n := ns[p].children[k]; var d := MovedDepth(ns, root, depth, n, q);
      && (m == root ==> d[m] == 0) && d[n] == d[q] + 1
      && (m != root && m != n ==> ns[m].parent < |ns| && d[m] == d[ns[m].parent] + 1)
  {
    Mover(ns, root, depth, p, k, q, name);
    assert NodeOk(ns, root, depth, m);
    hide DownOk, GoodName;
  }

  lemma NodeIs(ns: seq<Node>, root: nat, depth: seq<nat>, m: nat)
    requires Tree(ns, root, depth) && m < |ns| && ns[m].used
    ensures |depth| == |ns| && UpOk(ns, root, depth, m) && DownOk(ns, root, m)
  {
    assert NodeOk(ns, root, depth, m);
  }

  lemma MoveUp(ns: seq<Node>, root: nat, depth: seq<nat>, p: nat, k: nat, q: nat, name: string, m: nat)
    requires Sensible(ns, root, depth, p, k, q, name) && m < |ns| && ns[m].used
    ensures UpOk(Moved(ns, p, k, q, name), root, MovedDepth(ns, root, depth, ns[p].children[k], q), m)
  {
    hide DownOk, GoodName, Tree, Under, Moved;
    var ns', n, cs := Moved(ns, p, k, q, name), ns[p].children[k], ns[p].children;
    Mover(ns, root, depth, p, k, q, name);
    MovedDepths(ns, root, depth, p, k, q, name, m);
    NodeIs(ns, root, depth, m);
    MovedNode(ns, p, k, q, name, m);
    MovedNode(ns, p, k, q, name, if m == n then q else ns[m].parent);
    if m == n {
      assert ns'[q].children[|ns[q].children|] == n;
    } else if m != root && ns[m].parent == p {
      var i :| 0 <= i < |cs| && cs[i] == m;
      assert m == if i < k then ns'[p].children[i] else ns'[p].children[i - 1];
    }
  }

  lemma MoveDown(ns: seq<Node>, root: nat, depth: seq<nat>, p: nat, k: nat, q: nat, name: string, m: nat)
    requires Sensible(ns, root, depth, p, k, q, name) && m < |ns| && ns[m].used
    ensures DownOk(Moved(ns, p, k, q, name), root, m)
  {
    hide UpOk, GoodName, Tree, Under, Moved;
    var ns', n, cs := Moved(ns, p, k, q, name), ns[p].children[k], ns[m].children;
    Mover(ns, root, depth, p, k, q, name);
    NodeIs(ns, root, depth, m);
    MovedNode(ns, p, k, q, name, m);
    MovedNode(ns, p, k, q, name, n);
    forall i | 0 <= i < |cs| && cs[i] != n
      ensures ChildOk(ns', root, m, cs[i]) && ns'[cs[i]].name == ns[cs[i]].name
    {
      assert ChildOk(ns, root, m, cs[i]);
      MovedNode(ns, p, k, q, name, cs[i]);
    }
    if m == p {
      hide NamesDiffer;
      ChildRemoved(ns, ns', root, p, k);
    } else {
      assert forall i :: 0 <= i < |cs| ==> cs[i] != n;
      if m == q { ChildAdded(ns, ns', root, q, n); }
    }
  }

  /** The names from the root down to a node after the move: those of the moved subtree begin with
      the new directory and the new name, all others are what they were. */
  ghost function NewNames(ns: seq<Node>, root: nat, depth: seq<nat>, n: nat, q: nat, name: string, m: nat): seq<string>
    requires Tree(ns, root, depth) && n < |ns| && q < |ns| && ns[q].used && m < |ns| && ns[m].used
  {
    if Under(ns, root, depth, m, n) then NamesTo(ns, root, depth, q) + [name] + NamesTo(ns, root, depth, m)[depth[n]..]
    else NamesTo(ns, root, depth, m)
  }

  ghost predicate Carried(ns: seq<Node>, ns': seq<Node>, root: nat, depth: seq<nat>, depth': seq<nat>, n: nat, q: nat, name: string)
    requires Tree(ns, root, depth) && n < |ns| && q < |ns| && ns[q].used
  {
    && Tree(ns', root, depth') && |ns'| == |ns|
    && forall m: nat :: m < |ns| && ns[m].used ==>
         ns'[m].used && NamesTo(ns', root, depth', m) == NewNames(ns, root, depth, n, q, name, m)
  }

  lemma MoveCarries(ns: seq<Node>, root: nat, depth: seq<nat>, p: nat, k: nat, q: nat, name: string)
    requires Sensible(ns, root, depth, p, k, q, name)
    ensures var n := ns[p].children[k];
      Carried(ns, Moved(ns, p, k, q, name), root, depth, MovedDepth(ns, root, depth, n, q), n, q, name)
  {
    hide Tree, Under, NamesTo;
    var n := ns[p].children[k];
    var ns', d := Moved(ns, p, k, q, name), MovedDepth(ns, root, depth, n, q);
    MoveKeeps(ns, root, depth, p, k, q, name);
    forall m: nat | m < |ns| && ns[m].used
      ensures ns'[m].used && NamesTo(ns', root, d, m) == NewNames(ns, root, depth, n, q, name, m)
    {
      if Under(ns, root, depth, m, n) {
        NamesBelow(ns, root, depth, p, k, q, name, m);
      } else {
        NamesBeside(ns, root, depth, p, k, q, name, m);
      }
    }
  }

  /** A node that is not moved keeps its names: the nodes above it are not moved either. */
  lemma {:induction false} NamesBeside(ns: seq<Node>, root: nat, depth: seq<nat>, p: nat, k: nat, q: nat, name: string, m: nat)
    requires Sensible(ns, root, depth, p, k, q, name) && m < |ns| && ns[m].used
    requires !Under(ns, root, depth, m, ns[p].children[k])
    requires Tree(Moved(ns, p, k, q, name), root, MovedDepth(ns, root, depth, ns[p].children[k], q))
    ensures Moved(ns, p, k, q, name)[m].used
    ensures NamesTo(Moved(ns, p, k, q, name), root, MovedDepth(ns, root, depth, ns[p].children[k], q), m) == NamesTo(ns, root, depth, m)
    decreases depth[m]
  {
    hide Tree, Moved;
    Mover(ns, root, depth, p, k, q, name);
    MovedNode(ns, p, k, q, name, m);
    NodeIs(ns, root, depth, m);
    if m != root { NamesBeside(ns, root, depth, p, k, q, name, ns[m].parent); }
  }

  lemma {:induction false} NamesBelow(ns: seq<Node>, root: nat, depth: seq<nat>, p: nat, k: nat, q: nat, name: string, m: nat)
    requires Sensible(ns, root, depth, p, k, q, name) && m < |ns| && ns[m].used
    requires Under(ns, root, depth, m, ns[p].children[k])
    requires Tree(Moved(ns, p, k, q, name), root, MovedDepth(ns, root, depth, ns[p].children[k], q))
    ensures Moved(ns, p, k, q, name)[m].used
    ensures NamesTo(Moved(ns, p, k, q, name), root, MovedDepth(ns, root, depth, ns[p].children[k], q), m)
         == NewNames(ns, root, depth, ns[p].children[k], q, name, m)
    decreases depth[m]
  {
    hide Tree, Moved, NamesTo, GoodName, NewNames;
    var n := ns[p].children[k];
    var ns', d := Moved(ns, p, k, q, name), MovedDepth(ns, root, depth, n, q);
    Mover(ns, root, depth, p, k, q, name);
    MovedNode(ns, p, k, q, name, m);
    NodeIs(ns, root, depth, m);
    hide Sensible, CanMove, MovedDepth;
    UnderIsProper(ns, root, depth, m, n);
    NamesStep(ns', root, d, m);
    if m == n {
      NamesBeside(ns, root, depth, p, k, q, name, q);
      NewNamesTop(ns, root, depth, n, q, name);
    } else {
      NamesBelow(ns, root, depth, p, k, q, name, ns[m].parent);
      NewNamesNext(ns, root, depth, n, q, name, m);
    }
  }

  lemma UnderIsProper(ns: seq<Node>, root: nat, depth: seq<nat>, m: nat, n: nat)
    requires Tree(ns, root, depth) && n < |ns| && m < |ns| && ns[m].used && n != root && Under(ns, root, depth, m, n)
    ensures m != root && (m != n ==> ns[m].parent < |ns| && ns[ns[m].parent].used && depth[ns[m].parent] < depth[m]
                                     && Under(ns, root, depth, ns[m].parent, n))
  {
    NodeIs(ns, root, depth, m);
  }

  lemma NewNamesTop(ns: seq<Node>, root: nat, depth: seq<nat>, n: nat, q: nat, name: string)
    requires Tree(ns, root, depth) && n < |ns| && ns[n].used && q < |ns| && ns[q].used
    ensures NewNames(ns, root, depth, n, q, name, n) == NamesTo(ns, root, depth, q) + [name]
  {
    assert NamesTo(ns, root, depth, n)[depth[n]..] == [];
  }

  lemma NewNamesNext(ns: seq<Node>, root: nat, depth: seq<nat>, n: nat, q: nat, name: string, m: nat)
    requires Tree(ns, root, depth) && n < |ns| && q < |ns| && ns[q].used && m < |ns| && ns[m].used && m != root && m != n
    requires ns[m].parent < |ns| && ns[ns[m].parent].used && Under(ns, root, depth, ns[m].parent, n)
    ensures NewNames(ns, root, depth, n, q, name, m) == NewNames(ns, root, depth, n, q, name, ns[m].parent) + [ns[m].name]
  {
    hide Tree, NamesTo;
    NodeIs(ns, root, depth, m);
    NamesStep(ns, root, depth, m);
    NamesLength(ns, root, depth, ns[m].parent);
    var above := NamesTo(ns, root, depth, ns[m].parent);
    assert (above + [ns[m].name])[depth[n]..] == above[depth[n]..] + [ns[m].name];
  }

  lemma NamesLength(ns: seq<Node>, root: nat, depth: seq<nat>, n: nat)
    requires Tree(ns, root, depth) && n < |ns| && ns[n].used
    ensures |NamesTo(ns, root, depth, n)| == depth[n]
  {
  }

  // ----- What the two paths mean afterwards

  lemma {:induction false} ReachNames(ns: seq<Node>, root: nat, depth: seq<nat>, cur: nat, toks: seq<string>)
    requires Tree(ns, root, depth) && cur < |ns| && ns[cur].used && Reach(ns, cur, toks) >= 0
    ensures var r := Reach(ns, cur, toks); r < |ns| && ns[r].used && NamesTo(ns, root, depth, r) == NamesTo(ns, root, depth, cur) + toks
    decreases |toks|
  {
    hide Tree, NamesTo, Child;
    ReachDepth(ns, root, depth, cur, toks);
    if toks != [] {
      var c := NextUsed(ns, cur, toks[0]);
      ChildDepth(ns, root, depth, cur, toks[0]);
      NamesStep(ns, root, depth, c);
      ReachNames(ns, root, depth, c, toks[1..]);
      assert toks == [toks[0]] + toks[1..];
    }
  }

  lemma NextUsed(ns: seq<Node>, cur: nat, x: string) returns (c: nat)
    requires Child(ns, cur, x) >= 0
    ensures c == Child(ns, cur, x) && c < |ns| && ns[c].used && ns[c].name == x
  {
    c := Child(ns, cur, x);
  }

  /** The components of a path are the names of the directory its last component is looked up in,
      and that component. */
  lemma ResolvedNames(ns: seq<Node>, root: nat, depth: seq<nat>, path: string)
    requires Tree(ns, root, depth) && Components(path) != [] && (Resolved(ns, root, path).Found? || Resolved(ns, root, path).Missing?)
    ensures var o := Resolved(ns, root, path);
      path != "" && path[0] == '/' && o.parent < |ns| && ns[o.parent].used && Components(path) == NamesTo(ns, root, depth, o.parent) + [o.leaf]
  {
    hide Tree, NamesTo, Child, Walk, Components;
    var toks := Components(path);
    RootIs(ns, root, depth);
    RootNames(ns, root, depth);
    WalkReaches(ns, root, toks);
    ReachNames(ns, root, depth, root, toks[..|toks| - 1]);
    assert toks == toks[..|toks| - 1] + [toks[|toks| - 1]];
  }

  lemma RootNames(ns: seq<Node>, root: nat, depth: seq<nat>)
    requires Tree(ns, root, depth) && root < |ns| && ns[root].used
    ensures NamesTo(ns, root, depth, root) == []
  {
  }

  /** The path whose components are the names of directory `p` and one more is resolved by a lookup in `p`. */
  lemma LookedUpIn(ns: seq<Node>, root: nat, depth: seq<nat>, path: string, p: nat, leaf: string)
    requires Tree(ns, root, depth) && p < |ns| && ns[p].used && ns[p].dir && path != "" && path[0] == '/'
    requires Components(path) == NamesTo(ns, root, depth, p) + [leaf]
    ensures Resolved(ns, root, path) == AtParent(ns, p, leaf)
  {
    hide Tree, Child, Walk, Components, NamesTo;
    WalkOne(ns, p, leaf);
    if p == root {
      RootNames(ns, root, depth);
      assert Components(path) == [leaf];
    } else {
      NamesLength(ns, root, depth, p);
      RootDepth(ns, root, depth);
      WalkFinds(ns, root, depth, p);
      WalkFurther(ns, root, NamesTo(ns, root, depth, p), leaf);
    }
  }

  lemma OldNameGone(ns: seq<Node>, root: nat, depth: seq<nat>, p: nat, k: nat, q: nat, name: string)
    requires Sensible(ns, root, depth, p, k, q, name)
    ensures Child(Moved(ns, p, k, q, name), p, ns[ns[p].children[k]].name) == -1
  {
    hide Tree, Moved, Under;
    var ns', n, cs := Moved(ns, p, k, q, name), ns[p].children[k], ns[p].children;
    Mover(ns, root, depth, p, k, q, name);
    NodeIs(ns, root, depth, p);
    MovedNode(ns, p, k, q, name, p);
    var left := ns'[p].children;
    forall j | 0 <= j < |left|
      ensures left[j] < |ns'| && ns'[left[j]].name != ns[n].name
    {
      var i := if j < k then j else j + 1;
      assert cs[i] == left[j] && ChildOk(ns, root, p, cs[i]) && ChildOk(ns, root, p, cs[k]);
      MovedNode(ns, p, k, q, name, cs[i]);
    }
  }

  /** After a sensible move the new path leads to the node and the old one to nothing. */
  lemma MovedPaths(ns: seq<Node>, root: nat, depth: seq<nat>, k: nat, oldPath: string, newPath: string)
    requires Tree(ns, root, depth) && Resolved(ns, root, oldPath).Found? && Resolved(ns, root, newPath).Missing?
    requires Components(oldPath) != [] && Components(newPath) != []
    requires var a, b := Resolved(ns, root, oldPath), Resolved(ns, root, newPath);
      Sensible(ns, root, depth, a.parent, k, b.parent, b.leaf) && ns[a.parent].children[k] == a.node
    ensures var a, b := Resolved(ns, root, oldPath), Resolved(ns, root, newPath);
      var ns' := Moved(ns, a.parent, k, b.parent, b.leaf);
      && Resolved(ns', root, newPath) == Found(a.node, b.parent, b.leaf)
      && Resolved(ns', root, oldPath) == Missing(a.parent, a.leaf)
  {
    hide Tree, Components, Walk, NamesTo, Moved, Under, Resolved;
    var a, b := Resolved(ns, root, oldPath), Resolved(ns, root, newPath);
    var n, p, q, name := a.node, a.parent, b.parent, b.leaf;
    var ns', d := Moved(ns, p, k, q, name), MovedDepth(ns, root, depth, n, q);
    ResolvedNames(ns, root, depth, oldPath);
    ResolvedNames(ns, root, depth, newPath);
    Mover(ns, root, depth, p, k, q, name);
    LeafIsName(ns, root, oldPath);
    MoveKeeps(ns, root, depth, p, k, q, name);
    NodeIs(ns, root, depth, p);
    NodeIs(ns, root, depth, n);
    MovedNode(ns, p, k, q, name, p);
    MovedNode(ns, p, k, q, name, q);
    MovedNode(ns, p, k, q, name, n);
    NamesBeside(ns, root, depth, p, k, q, name, p);
    NamesBeside(ns, root, depth, p, k, q, name, q);
    OldNameGone(ns, root, depth, p, k, q, name);
    LookedUpIn(ns', root, d, oldPath, p, a.leaf);
    LookedUpIn(ns', root, d, newPath, q, name);
    ChildFound(ns', root, d, n);
  }

  lemma LeafIsName(ns: seq<Node>, root: nat, path: string)
    requires Resolved(ns, root, path).Found? && Components(path) != []
    ensures var o := Resolved(ns, root, path); o.node < |ns| && o.leaf == ns[o.node].name
  {
  }

  // ----- Moves that lose the node

  /** The table is no tree any more, whatever depths one gives the nodes, and no path leads to `n`. */
  ghost predicate Lost(ns: seq<Node>, root: nat, n: nat) {
    && (forall d: seq<nat> :: !Tree(ns, root, d))
    && forall path: string :: Resolved(ns, root, path).Found? ==> Resolved(ns, root, path).node != n
  }

  /** Nodes outside the subtree of `n` list none of its nodes. */
  ghost predicate CutOff(ns: seq<Node>, ns': seq<Node>, root: nat, depth: seq<nat>, n: nat)
    requires Tree(ns, root, depth) && n < |ns|
  {
    |ns'| == |ns| && forall m: nat :: m < |ns| && ns[m].used && !Under(ns, root, depth, m, n) ==>
      forall c :: c in ns'[m].children ==> c in ns[m].children && c != n
  }

  lemma StepOutside(ns: seq<Node>, ns': seq<Node>, root: nat, depth: seq<nat>, n: nat, cur: nat, x: string)
    requires Tree(ns, root, depth) && n < |ns| && CutOff(ns, ns', root, depth, n)
    requires cur < |ns| && ns[cur].used && !Under(ns, root, depth, cur, n) && Child(ns', cur, x) >= 0
    ensures var c := Child(ns', cur, x); 0 <= c < |ns| && c != n && ns[c].used && !Under(ns, root, depth, c, n)
  {
    var c := Child(ns', cur, x);
    assert c in ns'[cur].children;
    hide Child;
    var i :| 0 <= i < |ns[cur].children| && ns[cur].children[i] == c;
    NodeIs(ns, root, depth, cur);
    assert ChildOk(ns, root, cur, ns[cur].children[i]);
  }

  lemma {:induction false} WalksOutside(ns: seq<Node>, ns': seq<Node>, root: nat, depth: seq<nat>, n: nat, cur: nat, toks: seq<string>)
    requires Tree(ns, root, depth) && n < |ns| && CutOff(ns, ns', root, depth, n) && toks != []
    requires cur < |ns| && ns[cur].used && !Under(ns, root, depth, cur, n)
    ensures Walk(ns', cur, toks).Found? ==> Walk(ns', cur, toks).node != n
    decreases |toks|
  {
    hide Tree, Under, Child, CutOff;
    var c := Child(ns', cur, toks[0]);
    if c >= 0 {
      StepOutside(ns, ns', root, depth, n, cur, toks[0]);
      if |toks| > 1 && ns'[c].dir { WalksOutside(ns, ns', root, depth, n, c, toks[1..]); }
    }
  }

  lemma NoPathLeads(ns: seq<Node>, ns': seq<Node>, root: nat, depth: seq<nat>, n: nat)
    requires Tree(ns, root, depth) && n < |ns| && n != root && CutOff(ns, ns', root, depth, n)
    ensures forall path: string :: Resolved(ns', root, path).Found? ==> Resolved(ns', root, path).node != n
  {
    hide Tree, CutOff, Components, Walk;
    RootIs(ns, root, depth);
    forall path: string | Resolved(ns', root, path).Found?
      ensures Resolved(ns', root, path).node != n
    {
      if Components(path) != [] { WalksOutside(ns, ns', root, depth, n, root, Components(path)); }
    }
  }

  /** The failing branch of a full directory: the node is already out of its old one. */
  lemma UnlinkedIsLost(ns: seq<Node>, root: nat, depth: seq<nat>, p: nat, k: nat, q: nat, name: string)
    requires CanMove(ns, root, depth, p, k, q, name)
    ensures Lost(Unlinked(ns, p, k), root, ns[p].children[k])
  {
    hide Tree, Under, Resolved;
    var ns', n := Unlinked(ns, p, k), ns[p].children[k];
    Mover(ns, root, depth, p, k, q, name);
    forall d: seq<nat>
      ensures !Tree(ns', root, d)
    {
      if Tree(ns', root, d) { NodeIs(ns', root, d, n); }
    }
    assert CutOff(ns, ns', root, depth, n) by {
      assert forall c :: c in ns'[p].children ==> c in ns[p].children;
    }
    NoPathLeads(ns, ns', root, depth, n);
  }

  /** In a table with a parent loop depths cannot grow towards the leaves. */
  lemma {:induction false} DepthsGrow(ns: seq<Node>, root: nat, depth: seq<nat>, ns': seq<Node>, d: seq<nat>, n: nat, m: nat)
    requires Tree(ns, root, depth) && Tree(ns', root, d) && |ns'| == |ns| && n < |ns| && m < |ns| && ns[m].used && n != root
    requires forall i: nat :: i < |ns| && i != n && ns[i].used ==> ns'[i].used && ns'[i].parent == ns[i].parent
    requires Under(ns, root, depth, m, n)
    ensures d[n] <= d[m]
    decreases depth[m]
  {
    hide Tree;
    if m != n {
      NodeIs(ns, root, depth, m);
      NodeIs(ns', root, d, m);
      DepthsGrow(ns, root, depth, ns', d, n, ns[m].parent);
    }
  }

  /** A directory moved below itself. */
  lemma LoopIsLost(ns: seq<Node>, root: nat, depth: seq<nat>, p: nat, k: nat, q: nat, name: string)
    requires CanMove(ns, root, depth, p, k, q, name) && Under(ns, root, depth, q, ns[p].children[k])
    ensures Lost(Moved(ns, p, k, q, name), root, ns[p].children[k])
  {
    hide Tree, Under, Resolved, Moved;
    var ns', n := Moved(ns, p, k, q, name), ns[p].children[k];
    Mover(ns, root, depth, p, k, q, name);
    forall m: nat | m < |ns|
      ensures ns'[m].used == ns[m].used && ns'[m].parent == (if m == n then q else ns[m].parent)
      ensures m != q ==> ns'[m].children == if m == p then Unlinked(ns, p, k)[p].children else ns[m].children
    {
      MovedNode(ns, p, k, q, name, m);
    }
    forall d: seq<nat>
      ensures !Tree(ns', root, d)
    {
      if Tree(ns', root, d) {
        DepthsGrow(ns, root, depth, ns', d, n, q);
        NodeIs(ns', root, d, n);
      }
    }
    assert CutOff(ns, ns', root, depth, n) by {
      assert forall c :: c in ns'[p].children ==> c in ns[p].children;
    }
    NoPathLeads(ns, ns', root, depth, n);
  }
}
