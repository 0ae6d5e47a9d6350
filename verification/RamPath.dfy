/** Paths of kernel/src/fs/ramfs.c: their components, walking the tree along them, and the path of a
    node as kernel/src/fs/fs.c prints it. */
module RamPath {
  import opened RamTree

  // ----- Components

  function SkipSlashes(s: string): string {
    if s != "" && s[0] == '/' then SkipSlashes(s[1..]) else s
  }

  /** The characters up to the next slash. */
  function Head(s: string): (h: string)
    ensures |h| <= |s| && h == s[..|h|] && '/' !in h && (|h| < |s| ==> s[|h|] == '/')
  {
    if s == "" || s[0] == '/' then "" else [s[0]] + Head(s[1..])
  }

  function Cut(s: string): string {
    if |s| < MAX_NAME then s else s[..MAX_NAME - 1]
  }

  /** What repeated `ramfs_path_next` delivers: components cut to 63 characters. */
  function Components(s: string): seq<string>
    decreases |s|
  {
    var t := SkipSlashes(s);
    SkipShortens(s);
    if t == "" then [] else
    var h := Head(t);
    [Cut(h)] + Components(t[|h|..])
  }

  lemma SkipShortens(s: string)
    ensures |SkipSlashes(s)| <= |s| && (SkipSlashes(s) != "" ==> SkipSlashes(s)[0] != '/' && |Head(SkipSlashes(s))| > 0)
  {
  }

  lemma {:induction false} ComponentsGood(s: string)
    ensures forall i :: 0 <= i < |Components(s)| ==> GoodName(Components(s)[i])
    decreases |s|
  {
    var t := SkipSlashes(s);
    SkipShortens(s);
    if t != "" {
      ComponentsGood(t[|Head(t)|..]);
    }
  }

  // ----- Walking

  /** The first child of that name, or the number of children. */
  function FindChild(ns: seq<Node>, cs: seq<nat>, name: string): (k: nat)
    ensures k <= |cs|
    ensures k < |cs| ==> cs[k] < |ns| && ns[cs[k]].used && ns[cs[k]].name == name
    ensures forall i :: 0 <= i < k && cs[i] < |ns| && ns[cs[i]].used ==> ns[cs[i]].name != name
  {
    if cs == [] || (cs[0] < |ns| && ns[cs[0]].used && ns[cs[0]].name == name) then 0 else 1 + FindChild(ns, cs[1..], name)
  }

  function Child(ns: seq<Node>, p: nat, name: string): (c: int)
    ensures c == -1 || (0 <= c < |ns| && ns[c].used && ns[c].name == name && p < |ns| && c in ns[p].children)
  {
    if p >= |ns| then -1 else
    var k := FindChild(ns, ns[p].children, name);
    if k < |ns[p].children| then ns[p].children[k] else -1
  }

  /** The outcomes of `ramfs_resolve` apart from failed creation: the node, a missing last component,
      a missing directory, a file in the middle, or no path. */
  datatype Outcome = Found(node: nat, parent: nat, leaf: string) | Missing(parent: nat, leaf: string) | NoDir | NotDir | NoPath

  function Walk(ns: seq<Node>, cur: nat, toks: seq<string>): (o: Outcome)
    requires toks != []
    ensures o.Found? ==> o.node < |ns| && ns[o.node].used && o.node == Child(ns, o.parent, o.leaf) && o.leaf == toks[|toks| - 1]
    ensures o.Missing? ==> Child(ns, o.parent, o.leaf) == -1 && o.leaf == toks[|toks| - 1] && (o.parent == cur || (o.parent < |ns| && ns[o.parent].used && ns[o.parent].dir))
    decreases |toks|
  {
    var c := Child(ns, cur, toks[0]);
    if |toks| == 1 then if c >= 0 then Found(c, cur, toks[0]) else Missing(cur, toks[0])
    else if c < 0 then NoDir
    else if !ns[c].dir then NotDir
    else Walk(ns, c, toks[1..])
  }

  function Resolved(ns: seq<Node>, root: nat, path: string): Outcome {
    if path == "" || path[0] != '/' then NoPath
    else if Components(path) == [] then Found(root, root, "")
    else Walk(ns, root, Components(path))
  }

  /** Where a sequence of directory names leads, or -1. */
  function Reach(ns: seq<Node>, cur: nat, toks: seq<string>): int
    decreases |toks|
  {
    if toks == [] then cur
    else if Child(ns, cur, toks[0]) >= 0 && ns[Child(ns, cur, toks[0])].dir then Reach(ns, Child(ns, cur, toks[0]), toks[1..])
    else -1
  }

  lemma ReachStart(ns: seq<Node>, cur: nat)
    ensures Reach(ns, cur, []) == cur
  {
  }

  lemma {:induction false} ReachNext(ns: seq<Node>, cur: nat, toks: seq<string>, more: string)
    requires Reach(ns, cur, toks) >= 0 && Child(ns, Reach(ns, cur, toks), more) >= 0 && ns[Child(ns, Reach(ns, cur, toks), more)].dir
    ensures Reach(ns, cur, toks + [more]) == Child(ns, Reach(ns, cur, toks), more)
    decreases |toks|
  {
    if toks == [] {
      assert [more][1..] == [] && toks + [more] == [more];
    } else {
      assert (toks + [more])[1..] == toks[1..] + [more];
      ReachNext(ns, Child(ns, cur, toks[0]), toks[1..], more);
    }
  }

  /** The rest of a walk starts where its first part leads. */
  lemma {:induction false} WalkFrom(ns: seq<Node>, cur: nat, toks: seq<string>, rest: seq<string>)
    requires Reach(ns, cur, toks) >= 0 && rest != []
    ensures Walk(ns, cur, toks + rest) == Walk(ns, Reach(ns, cur, toks), rest)
    decreases |toks|
  {
    if toks == [] {
      assert toks + rest == rest;
    } else {
      assert (toks + rest)[1..] == toks[1..] + rest;
      WalkFrom(ns, Child(ns, cur, toks[0]), toks[1..], rest);
    }
  }

  /** Children that were found are found again. */
  ghost predicate StillFound(ns: seq<Node>, ns': seq<Node>) {
    forall q: nat, x: string :: Child(ns, q, x) >= 0 && ns[q].used ==> Child(ns', q, x) == Child(ns, q, x) && ns'[Child(ns, q, x)].dir == ns[Child(ns, q, x)].dir
  }

  lemma {:induction false} ReachKept(ns: seq<Node>, ns': seq<Node>, cur: nat, toks: seq<string>)
    requires StillFound(ns, ns') && cur < |ns| && ns[cur].used && Reach(ns, cur, toks) >= 0
    ensures Reach(ns', cur, toks) == Reach(ns, cur, toks)
    decreases |toks|
  {
    if toks != [] { ReachKept(ns, ns', Child(ns, cur, toks[0]), toks[1..]); }
  }

  lemma {:induction false} FindSame(ns: seq<Node>, ns': seq<Node>, cs: seq<nat>, more: seq<nat>, x: string)
    requires |ns'| == |ns| && forall i :: 0 <= i < |cs| && cs[i] < |ns| ==> ns'[cs[i]].used == ns[cs[i]].used && ns'[cs[i]].name == ns[cs[i]].name
    ensures FindChild(ns, cs, x) < |cs| ==> FindChild(ns', cs + more, x) == FindChild(ns, cs, x)
  {
    if cs != [] {
      FindSame(ns, ns', cs[1..], more, x);
      assert (cs + more)[1..] == cs[1..] + more;
    }
  }

  /** A new child hides none that is already there. */
  lemma AttachStillFinds(ns: seq<Node>, root: nat, depth: seq<nat>, p: nat, c: nat, node: Node)
    requires Tree(ns, root, depth) && p < |ns| && ns[p].used && c < |ns| && !ns[c].used
    ensures StillFound(ns, Attached(ns, p, c, node))
  {
    var ns' := Attached(ns, p, c, node);
    forall q: nat, x: string | Child(ns, q, x) >= 0 && ns[q].used
      ensures Child(ns', q, x) == Child(ns, q, x) && ns'[Child(ns, q, x)].dir == ns[Child(ns, q, x)].dir
    {
      ChildrenUsed(ns, root, depth, q);
      hide Tree;
      AttachFindsOne(ns, p, c, node, q, x);
    }
  }

  lemma AttachFindsOne(ns: seq<Node>, p: nat, c: nat, node: Node, q: nat, x: string)
    requires p < |ns| && c < |ns| && !ns[c].used && ns[p].used && q < |ns| && ns[q].used && Child(ns, q, x) >= 0
    requires forall i :: 0 <= i < |ns[q].children| ==> ns[q].children[i] < |ns| && ns[ns[q].children[i]].used
    ensures var ns' := Attached(ns, p, c, node);
      Child(ns', q, x) == Child(ns, q, x) && ns'[Child(ns, q, x)].dir == ns[Child(ns, q, x)].dir
  {
    var ns', cs := Attached(ns, p, c, node), ns[q].children;
    var more := if q == p then [c] else [];
    FindSame(ns, ns', cs, more, x);
    assert ns'[q].children == cs + more;
    hide FindChild, Attached;
  }

  lemma ChildrenUsed(ns: seq<Node>, root: nat, depth: seq<nat>, q: nat)
    requires Tree(ns, root, depth) && q < |ns|
    ensures ns[q].used ==> forall i :: 0 <= i < |ns[q].children| ==> ns[q].children[i] < |ns| && ns[ns[q].children[i]].used
  {
    if ns[q].used {
      assert NodeOk(ns, root, depth, q);
      forall i | 0 <= i < |ns[q].children|
        ensures ns[q].children[i] < |ns| && ns[ns[q].children[i]].used
      {
        assert ChildOk(ns, root, q, ns[q].children[i]);
      }
    }
  }

  // ----- Changes below a directory

  /** `ns'` is `ns` as far down as directory `p`, apart from `p`'s list of children. */
  ghost predicate AgreeAbove(ns: seq<Node>, ns': seq<Node>, depth: seq<nat>, p: nat) {
    && |ns'| == |ns| == |depth| && p < |ns|
    && ns'[p].used == ns[p].used && ns'[p].dir == ns[p].dir && ns'[p].name == ns[p].name
    && forall m :: 0 <= m < |ns| && m != p && ns[m].used && depth[m] <= depth[p] ==> ns'[m] == ns[m]
  }

  lemma {:induction false} FindAlike(ns: seq<Node>, ns': seq<Node>, cs: seq<nat>, x: string)
    requires |ns'| == |ns| && forall i :: 0 <= i < |cs| && cs[i] < |ns| ==> ns'[cs[i]].used == ns[cs[i]].used && ns'[cs[i]].name == ns[cs[i]].name
    ensures FindChild(ns', cs, x) == FindChild(ns, cs, x)
  {
    if cs != [] { FindAlike(ns, ns', cs[1..], x); }
  }

  /** Lookups above `p` come out the same. */
  lemma ChildAlike(ns: seq<Node>, ns': seq<Node>, root: nat, depth: seq<nat>, p: nat, q: nat, x: string)
    requires Tree(ns, root, depth) && AgreeAbove(ns, ns', depth, p) && q < |ns| && ns[q].used && depth[q] < depth[p]
    ensures Child(ns', q, x) == Child(ns, q, x)
    ensures Child(ns, q, x) >= 0 ==> depth[Child(ns, q, x)] == depth[q] + 1 && ns'[Child(ns, q, x)].dir == ns[Child(ns, q, x)].dir
  {
    assert NodeOk(ns, root, depth, q);
    var cs := ns[q].children;
    forall i | 0 <= i < |cs|
      ensures cs[i] < |ns| && ns[cs[i]].used && depth[cs[i]] == depth[q] + 1 && ns'[cs[i]].used && ns'[cs[i]].name == ns[cs[i]].name && ns'[cs[i]].dir == ns[cs[i]].dir
    {
      assert ChildOk(ns, root, q, cs[i]);
      assert NodeOk(ns, root, depth, cs[i]);
    }
    hide Tree, NodeOk;
    FindAlike(ns, ns', cs, x);
  }

  lemma {:induction false} ReachDepth(ns: seq<Node>, root: nat, depth: seq<nat>, cur: nat, toks: seq<string>)
    requires Tree(ns, root, depth) && cur < |ns| && ns[cur].used && Reach(ns, cur, toks) >= 0
    ensures Reach(ns, cur, toks) < |ns| && ns[Reach(ns, cur, toks)].used && depth[Reach(ns, cur, toks)] == depth[cur] + |toks|
    decreases |toks|
  {
    if toks != [] {
      ChildDepth(ns, root, depth, cur, toks[0]);
      ReachDepth(ns, root, depth, Child(ns, cur, toks[0]), toks[1..]);
    }
  }

  lemma ChildDepth(ns: seq<Node>, root: nat, depth: seq<nat>, q: nat, x: string)
    requires Tree(ns, root, depth) && q < |ns| && ns[q].used && Child(ns, q, x) >= 0
    ensures var c := Child(ns, q, x); c != root && ns[c].parent == q && depth[c] == depth[q] + 1
  {
    var c := Child(ns, q, x);
    assert NodeOk(ns, root, depth, q) && NodeOk(ns, root, depth, c);
    var i :| 0 <= i < |ns[q].children| && ns[q].children[i] == c;
    assert ChildOk(ns, root, q, ns[q].children[i]);
  }

  /** A directory is reached along the same names after changes below it. */
  lemma {:induction false} ReachAgain(ns: seq<Node>, ns': seq<Node>, root: nat, depth: seq<nat>, p: nat, cur: nat, toks: seq<string>)
    requires Tree(ns, root, depth) && AgreeAbove(ns, ns', depth, p) && cur < |ns| && ns[cur].used && Reach(ns, cur, toks) == p
    ensures Reach(ns', cur, toks) == p
    decreases |toks|
  {
    if toks != [] {
      ReachDepth(ns, root, depth, cur, toks);
      ChildAlike(ns, ns', root, depth, p, cur, toks[0]);
      ReachAgain(ns, ns', root, depth, p, Child(ns, cur, toks[0]), toks[1..]);
    }
  }

  /** A walk that gets to its last component has reached the directory before. */
  lemma {:induction false} WalkReaches(ns: seq<Node>, cur: nat, toks: seq<string>)
    requires toks != [] && (Walk(ns, cur, toks).Found? || Walk(ns, cur, toks).Missing?)
    ensures Reach(ns, cur, toks[..|toks| - 1]) == Walk(ns, cur, toks).parent && Walk(ns, cur, toks).leaf == toks[|toks| - 1]
    decreases |toks|
  {
    if |toks| > 1 {
      WalkReaches(ns, Child(ns, cur, toks[0]), toks[1..]);
      assert toks[1..][..|toks| - 2] == toks[..|toks| - 1][1..];
    } else {
      assert toks[..0] == [];
    }
  }

  function AtParent(ns: seq<Node>, p: nat, leaf: string): Outcome {
    if Child(ns, p, leaf) >= 0 then Found(Child(ns, p, leaf), p, leaf) else Missing(p, leaf)
  }

  lemma WalkOne(ns: seq<Node>, p: nat, leaf: string)
    ensures Walk(ns, p, [leaf]) == AtParent(ns, p, leaf)
  {
  }

  lemma RootIs(ns: seq<Node>, root: nat, depth: seq<nat>)
    requires Tree(ns, root, depth)
    ensures root < |ns| == |depth| == MAX_NODES && ns[root].used && ns[root].dir
  {
    assert NodeOk(ns, root, depth, root);
  }

  /** After changes below its parent directory a path resolves by the last lookup alone. */
  lemma ResolveAgain(ns: seq<Node>, ns': seq<Node>, root: nat, depth: seq<nat>, path: string)
    requires Tree(ns, root, depth) && path != "" && path[0] == '/' && Components(path) != []
    requires Resolved(ns, root, path).Found? || Resolved(ns, root, path).Missing?
    requires AgreeAbove(ns, ns', depth, Resolved(ns, root, path).parent)
    ensures Resolved(ns', root, path) == AtParent(ns', Resolved(ns, root, path).parent, Resolved(ns, root, path).leaf)
  {
    hide Tree, AgreeAbove, Components, Walk, Child;
    WalkAgain(ns, ns', root, depth, Components(path));
  }

  lemma WalkAgain(ns: seq<Node>, ns': seq<Node>, root: nat, depth: seq<nat>, toks: seq<string>)
    requires Tree(ns, root, depth) && toks != [] && (Walk(ns, root, toks).Found? || Walk(ns, root, toks).Missing?)
    requires AgreeAbove(ns, ns', depth, Walk(ns, root, toks).parent)
    ensures Walk(ns', root, toks) == AtParent(ns', Walk(ns, root, toks).parent, Walk(ns, root, toks).leaf)
  {
    hide Tree, AgreeAbove, Child, Reach, Walk;
    RootIs(ns, root, depth);
    var p := Walk(ns, root, toks).parent;
    var front, last := toks[..|toks| - 1], [toks[|toks| - 1]];
    WalkReaches(ns, root, toks);
    ReachAgain(ns, ns', root, depth, p, root, front);
    WalkFrom(ns', root, front, last);
    assert front + last == toks;
    WalkOne(ns', p, toks[|toks| - 1]);
  }

  // ----- The path of a node

  /** Names from the root down to a node. */
  ghost function NamesTo(ns: seq<Node>, root: nat, depth: seq<nat>, n: nat): (names: seq<string>)
    requires Tree(ns, root, depth) && n < |ns| && ns[n].used
    ensures |names| == depth[n] && (n != root ==> names != [] && names[|names| - 1] == ns[n].name)
    decreases depth[n]
  {
    assert NodeOk(ns, root, depth, n);
    if n == root then [] else NamesTo(ns, root, depth, ns[n].parent) + [ns[n].name]
  }

  lemma {:induction false} NamesGood(ns: seq<Node>, root: nat, depth: seq<nat>, n: nat)
    requires Tree(ns, root, depth) && n < |ns| && ns[n].used
    ensures forall i :: 0 <= i < depth[n] ==> GoodName(NamesTo(ns, root, depth, n)[i])
    decreases depth[n]
  {
    assert NodeOk(ns, root, depth, n);
    if n != root { NamesGood(ns, root, depth, ns[n].parent); }
  }

  /** The path that `fs_build_ramfs_path` prints. */
  function PathOf(names: seq<string>): string {
    if names == [] then "" else PathOf(names[..|names| - 1]) + "/" + names[|names| - 1]
  }

  lemma NamesStep(ns: seq<Node>, root: nat, depth: seq<nat>, n: nat)
    requires Tree(ns, root, depth) && n < |ns| && ns[n].used && n != root
    ensures var p := ns[n].parent; p < |ns| && ns[p].used && depth[n] == depth[p] + 1 && NamesTo(ns, root, depth, n) == NamesTo(ns, root, depth, p) + [ns[n].name]
  {
    assert NodeOk(ns, root, depth, n);
  }

  lemma RootDepth(ns: seq<Node>, root: nat, depth: seq<nat>)
    requires Tree(ns, root, depth)
    ensures forall n :: 0 <= n < |ns| && ns[n].used ==> (depth[n] == 0 <==> n == root)
  {
    forall n | 0 <= n < |ns| && ns[n].used
      ensures depth[n] == 0 <==> n == root
    {
      assert NodeOk(ns, root, depth, n);
    }
  }

  lemma PathStart()
    ensures PathOf([]) == ""
  {
  }

  /** One more name, and that paths only get longer. */
  lemma {:induction false} PathLonger(names: seq<string>, k: nat)
    requires k < |names|
    ensures PathOf(names[..k + 1]) == PathOf(names[..k]) + "/" + names[k] && |PathOf(names[..k + 1])| <= |PathOf(names)|
    decreases |names|
  {
    assert names[..k + 1][..k] == names[..k];
    if k + 1 < |names| {
      var front := names[..|names| - 1];
      PathLonger(front, k);
      assert front[..k + 1] == names[..k + 1] && front[..k] == names[..k];
    } else {
      assert names[..k + 1] == names;
    }
  }

  /** The child of a parent found by its name is that child. */
  lemma ChildFound(ns: seq<Node>, root: nat, depth: seq<nat>, n: nat)
    requires Tree(ns, root, depth) && n < |ns| && ns[n].used && n != root
    ensures Child(ns, ns[n].parent, ns[n].name) == n
  {
    assert NodeOk(ns, root, depth, n);
    var p := ns[n].parent;
    assert NodeOk(ns, root, depth, p);
    var cs := ns[p].children;
    var i :| 0 <= i < |cs| && cs[i] == n;
    var k := FindChild(ns, cs, ns[n].name);
    assert ChildOk(ns, root, p, cs[i]);
    assert k <= i;
    assert !(k < i);
  }

  /** Walking one component further. */
  lemma {:induction false} WalkFurther(ns: seq<Node>, cur: nat, toks: seq<string>, more: string)
    requires toks != [] && Walk(ns, cur, toks).Found? && ns[Walk(ns, cur, toks).node].dir
    ensures Walk(ns, cur, toks + [more]) == Walk(ns, Walk(ns, cur, toks).node, [more])
    decreases |toks|
  {
    assert (toks + [more])[1..] == toks[1..] + [more];
    if |toks| > 1 { WalkFurther(ns, Child(ns, cur, toks[0]), toks[1..], more); }
  }

  /** Along the names of a node the walk ends at the node. */
  lemma {:induction false} WalkFinds(ns: seq<Node>, root: nat, depth: seq<nat>, n: nat)
    requires Tree(ns, root, depth) && n < |ns| && ns[n].used && n != root
    ensures Walk(ns, root, NamesTo(ns, root, depth, n)) == Found(n, ns[n].parent, ns[n].name)
    decreases depth[n]
  {
    assert NodeOk(ns, root, depth, n);
    var p := ns[n].parent;
    ChildFound(ns, root, depth, n);
    if p == root {
      assert NamesTo(ns, root, depth, n) == [ns[n].name];
    } else {
      WalkFinds(ns, root, depth, p);
      WalkFurther(ns, root, NamesTo(ns, root, depth, p), ns[n].name);
    }
  }

  // ----- Printing and parsing a path

  lemma {:induction false} HeadIs(a: string, rest: string)
    requires '/' !in a && (rest == "" || rest[0] == '/')
    ensures Head(a + rest) == a
  {
    if a == "" {
      assert a + rest == rest;
    } else {
      HeadIs(a[1..], rest);
      assert (a + rest)[1..] == a[1..] + rest;
    }
  }

  /** One good component in front. */
  lemma ComponentsCons(a: string, rest: string)
    requires GoodName(a) && (rest == "" || rest[0] == '/')
    ensures Components("/" + a + rest) == [a] + Components(rest)
  {
    var s := "/" + a + rest;
    assert s[1..] == a + rest;
    assert SkipSlashes(s) == a + rest by {
      assert SkipSlashes(s) == SkipSlashes(s[1..]);
      assert (a + rest)[0] == a[0] && a[0] in a;
    }
    HeadIs(a, rest);
    assert (a + rest)[|a|..] == rest;
  }

  /** A path, from its front. */
  function PathFrom(names: seq<string>): string {
    if names == [] then "" else "/" + names[0] + PathFrom(names[1..])
  }

  lemma {:induction false} PathFromEnd(names: seq<string>, last: string)
    ensures PathFrom(names + [last]) == PathFrom(names) + "/" + last
  {
    if names == [] {
      assert [last][1..] == [] && names + [last] == [last];
    } else {
      PathFromEnd(names[1..], last);
      assert (names + [last])[1..] == names[1..] + [last];
    }
  }

  lemma {:induction false} SamePath(names: seq<string>)
    ensures PathOf(names) == PathFrom(names)
  {
    if names != [] {
      var front := names[..|names| - 1];
      SamePath(front);
      PathFromEnd(front, names[|names| - 1]);
      assert front + [names[|names| - 1]] == names;
    }
  }

  lemma {:induction false} ComponentsOfPath(names: seq<string>)
    requires forall i :: 0 <= i < |names| ==> GoodName(names[i])
    ensures Components(PathFrom(names)) == names
  {
    if names != [] {
      ComponentsOfPath(names[1..]);
      ComponentsCons(names[0], PathFrom(names[1..]));
    }
  }

  /** Resolving the path of a node gives the node. */
  lemma ResolvesToItself(ns: seq<Node>, root: nat, depth: seq<nat>, n: nat)
    requires Tree(ns, root, depth) && n < |ns| && ns[n].used && n != root
    ensures Resolved(ns, root, PathOf(NamesTo(ns, root, depth, n))) == Found(n, ns[n].parent, ns[n].name)
  {
    var names := NamesTo(ns, root, depth, n);
    NamesGood(ns, root, depth, n);
    SamePath(names);
    ComponentsOfPath(names);
    WalkFinds(ns, root, depth, n);
    hide Components, NamesTo, Walk;
    assert PathFrom(names)[0] == '/';
  }

  // ----- Depth is bounded by the number of nodes

  ghost function Shallow(ns: seq<Node>, depth: seq<nat>, k: nat): set<nat>
    requires |ns| == |depth|
  {
    set m: nat | m < |ns| && ns[m].used && depth[m] <= k
  }

  /** Above a node of depth `k` there are nodes of every smaller depth. */
  lemma {:induction false} ShallowSize(ns: seq<Node>, root: nat, depth: seq<nat>, n: nat)
    requires Tree(ns, root, depth) && n < |ns| && ns[n].used
    ensures |Shallow(ns, depth, depth[n])| > depth[n]
    decreases depth[n]
  {
    assert NodeOk(ns, root, depth, n);
    assert n in Shallow(ns, depth, depth[n]);
    if n != root {
      var p := ns[n].parent;
      ShallowSize(ns, root, depth, p);
      var less, more := Shallow(ns, depth, depth[p]), Shallow(ns, depth, depth[n]);
      assert less + {n} <= more;
      Smaller(less + {n}, more);
    }
  }

  lemma {:induction false} Smaller(a: set<nat>, b: set<nat>)
    requires a <= b
    ensures |a| <= |b|
  {
    assert b == a + (b - a);
  }

  ghost function Numbers(n: nat): set<nat> {
    if n == 0 then {} else Numbers(n - 1) + {n - 1}
  }

  lemma {:induction false} NumbersAre(n: nat)
    ensures forall m: nat :: m in Numbers(n) <==> m < n
    ensures |Numbers(n)| == n
  {
    if n > 0 { NumbersAre(n - 1); }
  }

  lemma DepthBound(ns: seq<Node>, root: nat, depth: seq<nat>, n: nat)
    requires Tree(ns, root, depth) && n < |ns| && ns[n].used
    ensures depth[n] < MAX_NODES
  {
    ShallowSize(ns, root, depth, n);
    NumbersAre(|ns|);
    Smaller(Shallow(ns, depth, depth[n]), Numbers(|ns|));
  }
}
