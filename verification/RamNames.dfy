/** What a path means, for every string: its names are what the slashes separate, and it leads to the
    node that has these names from the root down. */
module RamNames {
  import opened RamTree
  import opened RamPath

  // ----- The names in a path

  /** The pieces with a slash between them. */
  function Glued(pieces: seq<string>): string {
    if pieces == [] then "" else if |pieces| == 1 then pieces[0] else pieces[0] + "/" + Glued(pieces[1..])
  }

  ghost predicate NoSlashes(pieces: seq<string>) {
    forall i :: 0 <= i < |pieces| ==> '/' !in pieces[i]
  }

  /** The pieces that are not empty, each cut to its first 63 characters. */
  function Names(pieces: seq<string>): seq<string> {
    if pieces == [] then []
    else (if pieces[0] == "" then [] else [if |pieces[0]| <= 63 then pieces[0] else pieces[0][..63]]) + Names(pieces[1..])
  }

  /** Slashes separate names; empty names between, before or behind slashes do not count. */
  lemma {:induction false} PathNames(pieces: seq<string>)
    requires NoSlashes(pieces)
    ensures Components(Glued(pieces)) == Names(pieces)
    ensures Components("/" + Glued(pieces)) == Names(pieces)
    decreases |pieces|
  {
    hide Components;
    SlashFirst(Glued(pieces));
    if pieces == [] {
      Nothing();
    } else {
      var a, rest := pieces[0], if |pieces| == 1 then "" else "/" + Glued(pieces[1..]);
      assert Glued(pieces) == a + rest;
      assert NoSlashes(pieces[1..]);
      PathNames(pieces[1..]);
      Nothing();
      if a != "" { NameFirst(a, rest); } else { assert a + rest == rest; }
    }
  }

  lemma SlashFirst(s: string)
    ensures Components("/" + s) == Components(s)
  {
    assert ("/" + s)[1..] == s;
    assert SkipSlashes("/" + s) == SkipSlashes(s);
  }

  lemma Nothing()
    ensures Components("") == [] && Components("/") == []
  {
    assert SkipSlashes("/") == SkipSlashes("/"[1..]) == "";
  }

  lemma NameFirst(a: string, rest: string)
    requires a != "" && '/' !in a && (rest == "" || rest[0] == '/')
    ensures Components(a + rest) == [if |a| <= 63 then a else a[..63]] + Components(rest)
  {
    assert (a + rest)[0] == a[0] && a[0] in a;
    assert SkipSlashes(a + rest) == a + rest;
    HeadIs(a, rest);
    assert (a + rest)[|a|..] == rest;
  }

  /** Every string has such pieces. */
  lemma {:induction false} Pieces(s: string) returns (pieces: seq<string>)
    ensures NoSlashes(pieces) && s == Glued(pieces) && pieces != []
    decreases |s|
  {
    var h := Head(s);
    if |h| == |s| {
      pieces := [s];
      assert h == s;
    } else {
      var rest := Pieces(s[|h| + 1..]);
      pieces := [h] + rest;
      assert pieces[1..] == rest;
      assert s == h + "/" + s[|h| + 1..];
    }
  }

  // ----- The node at the end of a path

  /** A path leads to exactly the node that has its names; only what begins with a slash is a path. */
  lemma ResolvedIs(ns: seq<Node>, root: nat, depth: seq<nat>, path: string, n: nat)
    requires Tree(ns, root, depth) && n < |ns| && ns[n].used
    ensures (Resolved(ns, root, path).Found? && Resolved(ns, root, path).node == n) <==>
            path != "" && path[0] == '/' && NamesTo(ns, root, depth, n) == Components(path)
    ensures Resolved(ns, root, path) == NoPath <==> path == "" || path[0] != '/'
  {
    hide Tree, Components, Walk, NamesTo;
    RootIs(ns, root, depth);
    RootNames(ns, root, depth, n);
    var toks := Components(path);
    if toks != [] {
      WalkNames(ns, root, depth, toks);
      if NamesTo(ns, root, depth, n) == toks { WalkFinds(ns, root, depth, n); }
      NotNoPath(ns, root, toks);
    }
  }

  lemma RootNames(ns: seq<Node>, root: nat, depth: seq<nat>, n: nat)
    requires Tree(ns, root, depth) && n < |ns| && ns[n].used
    ensures NamesTo(ns, root, depth, n) == [] <==> n == root
  {
    RootDepth(ns, root, depth);
  }

  lemma {:induction false} NotNoPath(ns: seq<Node>, cur: nat, toks: seq<string>)
    requires toks != []
    ensures Walk(ns, cur, toks) != NoPath
    decreases |toks|
  {
    var c := Child(ns, cur, toks[0]);
    if |toks| > 1 && c >= 0 && ns[c].dir { NotNoPath(ns, c, toks[1..]); }
  }

  /** Where directory names lead is the directory with these names. */
  lemma {:induction false} ReachNames(ns: seq<Node>, root: nat, depth: seq<nat>, toks: seq<string>)
    requires Tree(ns, root, depth) && Reach(ns, root, toks) >= 0
    ensures var q := Reach(ns, root, toks); q < |ns| && ns[q].used && NamesTo(ns, root, depth, q) == toks
    decreases |toks|
  {
    hide Tree, NamesTo;
    RootIs(ns, root, depth);
    RootNames(ns, root, depth, root);
    ReachDepth(ns, root, depth, root, toks);
    if toks != [] {
      var front, last := toks[..|toks| - 1], toks[|toks| - 1];
      assert toks == front + [last];
      ReachFront(ns, root, front, last);
      ReachNames(ns, root, depth, front);
      var p, c := Reach(ns, root, front), Reach(ns, root, toks);
      ChildDepth(ns, root, depth, p, last);
      NamesStep(ns, root, depth, c);
    }
  }

  lemma {:induction false} ReachFront(ns: seq<Node>, cur: nat, front: seq<string>, last: string)
    requires Reach(ns, cur, front + [last]) >= 0
    ensures Reach(ns, cur, front) >= 0 && Reach(ns, cur, front + [last]) == Child(ns, Reach(ns, cur, front), last)
    decreases |front|
  {
    if front == [] {
      assert [last][1..] == [] && front + [last] == [last];
    } else {
      assert (front + [last])[1..] == front[1..] + [last];
      ReachFront(ns, Child(ns, cur, front[0]), front[1..], last);
    }
  }

  lemma WalkNames(ns: seq<Node>, root: nat, depth: seq<nat>, toks: seq<string>)
    requires Tree(ns, root, depth) && toks != []
    ensures var o := Walk(ns, root, toks);
      o.Found? ==> o.node < |ns| && ns[o.node].used && o.node != root && NamesTo(ns, root, depth, o.node) == toks
  {
    hide Tree, NamesTo, Walk, Reach;
    var o := Walk(ns, root, toks);
    if o.Found? {
      var front, last := toks[..|toks| - 1], toks[|toks| - 1];
      assert toks == front + [last];
      WalkReaches(ns, root, toks);
      ReachNames(ns, root, depth, front);
      WalkEnds(ns, root, toks);
      ChildDepth(ns, root, depth, o.parent, last);
      NamesStep(ns, root, depth, o.node);
    }
  }

  lemma WalkEnds(ns: seq<Node>, cur: nat, toks: seq<string>)
    requires toks != [] && Walk(ns, cur, toks).Found?
    ensures var o := Walk(ns, cur, toks);
      o.node < |ns| && ns[o.node].used && o.node == Child(ns, o.parent, o.leaf) && o.leaf == toks[|toks| - 1] && ns[o.node].name == o.leaf
  {
  }

  lemma {:induction false} ReachFinds(ns: seq<Node>, root: nat, depth: seq<nat>, n: nat)
    requires Tree(ns, root, depth) && n < |ns| && ns[n].used && ns[n].dir
    ensures Reach(ns, root, NamesTo(ns, root, depth, n)) == n
    decreases depth[n]
  {
    hide Tree, NamesTo;
    RootNames(ns, root, depth, n);
    if n != root {
      NamesStep(ns, root, depth, n);
      ChildFound(ns, root, depth, n);
      ParentDir(ns, root, depth, n);
      ReachFinds(ns, root, depth, ns[n].parent);
      ReachNext(ns, root, NamesTo(ns, root, depth, ns[n].parent), ns[n].name);
    }
  }

  lemma ParentDir(ns: seq<Node>, root: nat, depth: seq<nat>, n: nat)
    requires Tree(ns, root, depth) && n < |ns| && ns[n].used
    ensures ns[n].parent < |ns| && ns[ns[n].parent].used && ns[ns[n].parent].dir
  {
    assert NodeOk(ns, root, depth, n);
  }

  /** A path names something missing in a directory exactly when its names are those of the directory
      and one more that no child has. */
  lemma MissingIs(ns: seq<Node>, root: nat, depth: seq<nat>, path: string, p: nat, leaf: string)
    requires Tree(ns, root, depth) && p < |ns| && ns[p].used && ns[p].dir
    ensures Resolved(ns, root, path) == Missing(p, leaf) <==>
            && path != "" && path[0] == '/' && Components(path) == NamesTo(ns, root, depth, p) + [leaf]
            && forall c :: 0 <= c < |ns| && ns[c].used && c != root && ns[c].parent == p ==> ns[c].name != leaf
  {
    hide Tree, Components, Walk, NamesTo, Child;
    var toks := Components(path);
    ChildOrNot(ns, root, depth, p, leaf);
    if path != "" && path[0] == '/' && toks != [] {
      MissingWalk(ns, root, depth, toks, p, leaf);
      ReachFinds(ns, root, depth, p);
      if toks == NamesTo(ns, root, depth, p) + [leaf] {
        WalkFrom(ns, root, NamesTo(ns, root, depth, p), [leaf]);
        WalkOne(ns, p, leaf);
      }
    }
  }

  lemma ChildOrNot(ns: seq<Node>, root: nat, depth: seq<nat>, p: nat, leaf: string)
    requires Tree(ns, root, depth) && p < |ns| && ns[p].used
    ensures Child(ns, p, leaf) < 0 <==> forall c :: 0 <= c < |ns| && ns[c].used && c != root && ns[c].parent == p ==> ns[c].name != leaf
  {
    hide Tree;
    if Child(ns, p, leaf) >= 0 {
      ChildDepth(ns, root, depth, p, leaf);
    }
    forall c | 0 <= c < |ns| && ns[c].used && c != root && ns[c].parent == p && ns[c].name == leaf
      ensures Child(ns, p, leaf) == c
    {
      ChildFound(ns, root, depth, c);
    }
  }

  lemma MissingWalk(ns: seq<Node>, root: nat, depth: seq<nat>, toks: seq<string>, p: nat, leaf: string)
    requires Tree(ns, root, depth) && toks != []
    ensures Walk(ns, root, toks) == Missing(p, leaf) ==>
      p < |ns| && ns[p].used && toks == NamesTo(ns, root, depth, p) + [leaf] && Child(ns, p, leaf) < 0
  {
    hide Tree, NamesTo, Child, Reach;
    if Walk(ns, root, toks) == Missing(p, leaf) {
      WalkReaches(ns, root, toks);
      ReachNames(ns, root, depth, toks[..|toks| - 1]);
      assert toks == toks[..|toks| - 1] + [toks[|toks| - 1]];
    }
  }
}
