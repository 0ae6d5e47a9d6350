/** The node table of kernel/src/fs/ramfs.c as a value: a tree of named nodes, and the pool ranges
    of its files. */
module RamTree {

  const MAX_NODES: nat := 1024
  const MAX_CHILDREN: nat := 64
  const MAX_NAME: nat := 64

  /** `data` is an offset into the file pool. */
  datatype Node = Node(used: bool, dir: bool, parent: nat, name: string, children: seq<nat>, data: nat, size: nat, capacity: nat)

  const UNUSED := Node(false, false, 0, "", [], 0, 0, 0)

  /** A path component: not empty, short enough, without a slash. */
  predicate GoodName(s: string) {
    0 < |s| < MAX_NAME && '/' !in s
  }

  ghost predicate Distinct(q: seq<nat>) {
    forall i, j :: 0 <= i < j < |q| ==> q[i] != q[j]
  }

  /** Node `c` is a child of `n`. */
  ghost predicate ChildOk(ns: seq<Node>, root: nat, n: nat, c: nat) {
    c < |ns| && c != root && ns[c].used && ns[c].parent == n
  }

  ghost predicate NamesDiffer(ns: seq<Node>, cs: seq<nat>) {
    forall i, j :: 0 <= i < j < |cs| && cs[i] < |ns| && cs[j] < |ns| ==> ns[cs[i]].name != ns[cs[j]].name
  }

  /** A node seen from below: its parent is a directory that lists it. */
  ghost predicate UpOk(ns: seq<Node>, root: nat, depth: seq<nat>, n: nat)
    requires n < |ns| == |depth|
  {
    if n == root then ns[n].dir && ns[n].parent == root && depth[n] == 0
    else
      && ns[n].parent < |ns| && ns[ns[n].parent].used && ns[ns[n].parent].dir && n in ns[ns[n].parent].children
      && GoodName(ns[n].name) && depth[n] == depth[ns[n].parent] + 1
  }

  /** And from above: its children are its own and have different names. */
  ghost predicate DownOk(ns: seq<Node>, root: nat, n: nat)
    requires n < |ns|
  {
    && (!ns[n].dir ==> ns[n].children == []) && |ns[n].children| <= MAX_CHILDREN
    && Distinct(ns[n].children) && NamesDiffer(ns, ns[n].children)
    && (forall i :: 0 <= i < |ns[n].children| ==> ChildOk(ns, root, n, ns[n].children[i]))
  }

  ghost predicate NodeOk(ns: seq<Node>, root: nat, depth: seq<nat>, n: nat)
    requires n < |ns| == |depth|
  {
    UpOk(ns, root, depth, n) && DownOk(ns, root, n)
  }

  /** Parents and children agree, siblings have different names, and the depth shows that every
      used node hangs below the root. */
  ghost predicate Tree(ns: seq<Node>, root: nat, depth: seq<nat>) {
    && |ns| == |depth| == MAX_NODES && root < |ns| && ns[root].used
    && forall n :: 0 <= n < |ns| && ns[n].used ==> NodeOk(ns, root, depth, n)
  }

  // ----- Changes

  function Attached(ns: seq<Node>, p: nat, c: nat, node: Node): (r: seq<Node>)
    requires p < |ns| && c < |ns|
    ensures |r| == |ns|
  {
    ns[c := node][p := ns[p].(children := ns[p].children + [c])]
  }

  ghost predicate CanAttach(ns: seq<Node>, root: nat, depth: seq<nat>, p: nat, c: nat, node: Node) {
    && Tree(ns, root, depth) && p < |ns| && ns[p].used && ns[p].dir && c < |ns| && !ns[c].used
    && node.used && node.parent == p && node.children == [] && GoodName(node.name) && |ns[p].children| < MAX_CHILDREN
    && forall i :: 0 <= i < |ns[p].children| && ns[p].children[i] < |ns| ==> ns[ns[p].children[i]].name != node.name
  }

  /** A new node below a directory that has no child of that name. */
  lemma AttachKeeps(ns: seq<Node>, root: nat, depth: seq<nat>, p: nat, c: nat, node: Node)
    requires CanAttach(ns, root, depth, p, c, node)
    ensures Tree(Attached(ns, p, c, node), root, depth[c := depth[p] + 1])
  {
    var ns', depth' := Attached(ns, p, c, node), depth[c := depth[p] + 1];
    forall n | 0 <= n < |ns'| && ns'[n].used
      ensures NodeOk(ns', root, depth', n)
    {
      AttachUp(ns, root, depth, p, c, node, n);
      AttachDown(ns, root, depth, p, c, node, n);
    }
    assert ns'[root].used;
    hide NodeOk;
  }

  lemma AttachUp(ns: seq<Node>, root: nat, depth: seq<nat>, p: nat, c: nat, node: Node, n: nat)
    requires CanAttach(ns, root, depth, p, c, node) && n < |ns| && (n == c || ns[n].used)
    ensures UpOk(Attached(ns, p, c, node), root, depth[c := depth[p] + 1], n)
  {
    var ns' := Attached(ns, p, c, node);
    assert ns'[p].children[|ns[p].children|] == c;
    if n != c {
      assert NodeOk(ns, root, depth, n);
      hide DownOk, GoodName;
      if n != root {
        assert forall x :: x in ns[p].children ==> x in ns'[p].children;
      }
    }
  }

  lemma AttachDown(ns: seq<Node>, root: nat, depth: seq<nat>, p: nat, c: nat, node: Node, n: nat)
    requires CanAttach(ns, root, depth, p, c, node) && n < |ns| && (n == c || ns[n].used)
    ensures DownOk(Attached(ns, p, c, node), root, n)
  {
    var ns' := Attached(ns, p, c, node);
    if n != c {
      assert NodeOk(ns, root, depth, n);
      hide UpOk, GoodName;
      var cs := ns[n].children;
      forall i | 0 <= i < |cs|
        ensures cs[i] != c && ChildOk(ns', root, n, cs[i]) && ns'[cs[i]].name == ns[cs[i]].name
      {
        assert ChildOk(ns, root, n, cs[i]);
      }
      hide Tree;
      if n == p { ChildAdded(ns, ns', root, p, c); }
    }
  }

  lemma ChildAdded(ns: seq<Node>, ns': seq<Node>, root: nat, p: nat, c: nat)
    requires p < |ns| == |ns'| && DownOk(ns, root, p) && ns'[p].dir && ns'[p].children == ns[p].children + [c] && |ns[p].children| < MAX_CHILDREN
    requires forall i :: 0 <= i < |ns[p].children| ==> ns[p].children[i] != c && ChildOk(ns', root, p, ns[p].children[i]) && ns'[ns[p].children[i]].name == ns[ns[p].children[i]].name
    requires ChildOk(ns', root, p, c) && forall i :: 0 <= i < |ns[p].children| ==> ns'[ns[p].children[i]].name != ns'[c].name
    ensures DownOk(ns', root, p)
  {
  }

  // ----- Taking a node out

  function Detached(ns: seq<Node>, p: nat, k: nat): (r: seq<Node>)
    requires p < |ns| && k < |ns[p].children| && ns[p].children[k] < |ns|
    ensures |r| == |ns|
  {
    var cs := ns[p].children;
    ns[p := ns[p].(children := cs[..k] + cs[k + 1..])][cs[k] := UNUSED]
  }

  ghost predicate CanDetach(ns: seq<Node>, root: nat, depth: seq<nat>, p: nat, k: nat) {
    && Tree(ns, root, depth) && p < |ns| && ns[p].used && k < |ns[p].children| && ns[p].children[k] < |ns|
    && ns[p].children[k] != p && ns[ns[p].children[k]].children == []
  }

  /** A node without children leaves. */
  lemma DetachKeeps(ns: seq<Node>, root: nat, depth: seq<nat>, p: nat, k: nat)
    requires CanDetach(ns, root, depth, p, k)
    ensures Tree(Detached(ns, p, k), root, depth)
  {
    var ns' := Detached(ns, p, k);
    assert NodeOk(ns, root, depth, p);
    assert ChildOk(ns, root, p, ns[p].children[k]);
    forall n | 0 <= n < |ns'| && ns'[n].used
      ensures NodeOk(ns', root, depth, n)
    {
      DetachUp(ns, root, depth, p, k, n);
      DetachDown(ns, root, depth, p, k, n);
    }
    hide NodeOk;
  }

  lemma DetachUp(ns: seq<Node>, root: nat, depth: seq<nat>, p: nat, k: nat, n: nat)
    requires CanDetach(ns, root, depth, p, k) && n < |ns| && ns[n].used && n != ns[p].children[k]
    ensures UpOk(Detached(ns, p, k), root, depth, n)
  {
    var ns' := Detached(ns, p, k);
    var c, cs := ns[p].children[k], ns[p].children;
    assert NodeOk(ns, root, depth, n) && NodeOk(ns, root, depth, p);
    if n != root {
      assert ns[n].parent != c;
      if ns[n].parent == p {
        var i :| 0 <= i < |cs| && cs[i] == n;
        assert n == if i < k then ns'[p].children[i] else ns'[p].children[i - 1];
      }
    }
  }

  lemma DetachDown(ns: seq<Node>, root: nat, depth: seq<nat>, p: nat, k: nat, n: nat)
    requires CanDetach(ns, root, depth, p, k) && n < |ns| && ns[n].used && n != ns[p].children[k]
    ensures DownOk(Detached(ns, p, k), root, n)
  {
    var ns' := Detached(ns, p, k);
    var c := ns[p].children[k];
    assert NodeOk(ns, root, depth, n) && NodeOk(ns, root, depth, p);
    assert ChildOk(ns, root, p, c);
    var cs := ns[n].children;
    forall i | 0 <= i < |cs| && cs[i] != c
      ensures ChildOk(ns', root, n, cs[i]) && ns'[cs[i]].name == ns[cs[i]].name
    {
      assert ChildOk(ns, root, n, cs[i]);
    }
    if n == p {
      hide Tree, UpOk;
      ChildRemoved(ns, ns', root, p, k);
    } else {
      assert forall i :: 0 <= i < |cs| ==> ChildOk(ns, root, n, cs[i]) && cs[i] != c;
    }
  }

  lemma ChildRemoved(ns: seq<Node>, ns': seq<Node>, root: nat, p: nat, k: nat)
    requires p < |ns| == |ns'| && DownOk(ns, root, p) && k < |ns[p].children| && ns'[p].dir == ns[p].dir
    requires var cs := ns[p].children; ns'[p].children == cs[..k] + cs[k + 1..]
    requires forall i :: 0 <= i < |ns[p].children| && i != k ==> ChildOk(ns', root, p, ns[p].children[i]) && ns'[ns[p].children[i]].name == ns[ns[p].children[i]].name
    ensures DownOk(ns', root, p)
  {
    var cs, cs' := ns[p].children, ns'[p].children;
    forall i | 0 <= i < |cs'|
      ensures cs'[i] == cs[if i < k then i else i + 1] && ChildOk(ns', root, p, cs'[i]) && ns'[cs'[i]].name == ns[cs'[i]].name
    {
    }
  }

  // ----- Other changes of a node

  /** The node keeps its place. */
  predicate SamePlace(a: Node, b: Node) {
    a.used == b.used && a.dir == b.dir && a.parent == b.parent && a.children == b.children
  }

  /** A node of the same place and a name no sibling has. */
  lemma ReplaceKeeps(ns: seq<Node>, root: nat, depth: seq<nat>, n: nat, node: Node)
    requires Tree(ns, root, depth) && n < |ns| && ns[n].used && SamePlace(ns[n], node)
    requires n != root ==> node.name == ns[n].name || (GoodName(node.name) && NoSibling(ns, n, node.name))
    ensures Tree(ns[n := node], root, depth)
  {
    var ns' := ns[n := node];
    forall m | 0 <= m < |ns'| && ns'[m].used
      ensures NodeOk(ns', root, depth, m)
    {
      assert NodeOk(ns, root, depth, m);
      ReplaceDown(ns, root, depth, n, node, m);
    }
  }

  /** No other child of the node's parent has the name. */
  ghost predicate NoSibling(ns: seq<Node>, n: nat, name: string)
    requires n < |ns|
  {
    ns[n].parent < |ns| && forall i :: 0 <= i < |ns[ns[n].parent].children| ==>
      (ns[ns[n].parent].children[i] < |ns| ==> ns[ns[ns[n].parent].children[i]].name != name)
  }

  lemma ReplaceDown(ns: seq<Node>, root: nat, depth: seq<nat>, n: nat, node: Node, m: nat)
    requires Tree(ns, root, depth) && n < |ns| && ns[n].used && SamePlace(ns[n], node) && m < |ns| && ns[m].used
    requires n != root ==> node.name == ns[n].name || NoSibling(ns, n, node.name)
    ensures DownOk(ns[n := node], root, m)
  {
    var ns' := ns[n := node];
    assert NodeOk(ns, root, depth, m);
    var cs := ns[m].children;
    assert ns'[m].children == cs;
    forall i | 0 <= i < |cs|
      ensures ChildOk(ns', root, m, cs[i])
    {
      assert ChildOk(ns, root, m, cs[i]);
    }
    forall i, j | 0 <= i < j < |cs|
      ensures ns'[cs[i]].name != ns'[cs[j]].name
    {
      assert ChildOk(ns, root, m, cs[i]) && ChildOk(ns, root, m, cs[j]);
    }
  }
}
