/** The operations of kernel/src/fs/ramfs.c on their node table and file pool. */
module Ramfs {
  import opened RamTree
  import opened RamPath
  import opened RamMove

  const POOL: nat := 1024 * 1024
  const MAX_PATH: nat := 256

  type Byte = b: int | 0 <= b < 256 witness 0

  /** Ranges of different files do not overlap and lie in the used part of the pool. */
  ghost predicate PoolOk(ns: seq<Node>, used: nat) {
    && (forall n :: 0 <= n < |ns| && ns[n].used ==> RangeOk(ns[n], used))
    && (forall n, m :: 0 <= n < m < |ns| && ns[n].used && ns[m].used ==> Apart(ns[n], ns[m]))
  }

  predicate RangeOk(a: Node, used: nat) {
    a.size <= a.capacity && (a.dir ==> a.capacity == 0) && (a.capacity > 0 ==> a.data + a.capacity <= used)
  }

  predicate Apart(a: Node, b: Node) {
    a.capacity == 0 || b.capacity == 0 || a.data + a.capacity <= b.data || b.data + b.capacity <= a.data
  }

  /** A node keeps everything but its list of children. */
  predicate Same(a: Node, b: Node) {
    a.used && b.used && a.dir == b.dir && a.parent == b.parent && a.name == b.name && a.data == b.data && a.size == b.size && a.capacity == b.capacity
  }

  /** Nodes may have been added; all others are the same. */
  ghost predicate Extends(ns: seq<Node>, ns': seq<Node>) {
    |ns'| == |ns| && forall n :: 0 <= n < |ns| && ns[n].used ==> Same(ns[n], ns'[n])
  }

  /** The nodes added are directories. */
  ghost predicate NewAreDirs(ns: seq<Node>, ns': seq<Node>) {
    |ns'| == |ns| && forall n :: 0 <= n < |ns| && ns'[n].used && !ns[n].used ==> ns'[n].dir
  }

  /** The bytes of a file in the pool. */
  function Bytes(a: Node, pool: seq<Byte>): seq<Byte> {
    if a.data + a.size <= |pool| then pool[a.data..a.data + a.size] else []
  }

  /** No child can be added to directory `p`. */
  ghost predicate NoRoom(ns: seq<Node>, p: nat) {
    p < |ns| && (|ns[p].children| >= MAX_CHILDREN || forall n :: 0 <= n < |ns| ==> ns[n].used)
  }

  /** A component is missing in a directory without room for it. */
  ghost predicate Blocked(ns: seq<Node>, root: nat, toks: seq<string>) {
    exists k :: 0 <= k < |toks| && BlockedAt(ns, root, toks, k)
  }

  ghost predicate BlockedAt(ns: seq<Node>, root: nat, toks: seq<string>, k: nat) {
    k < |toks| && var p := Reach(ns, root, toks[..k]); p >= 0 && Child(ns, p, toks[k]) == -1 && NoRoom(ns, p)
  }

  /** The nodes added stand along a path: what leads to one is a first part of the components, and
      all but the last of them are directories. */
  ghost predicate Along(ns: seq<Node>, ns': seq<Node>, root: nat, depth: seq<nat>, toks: seq<string>) {
    && Tree(ns', root, depth) && |ns| == |ns'|
    && forall m :: 0 <= m < |ns'| && ns'[m].used && !ns[m].used ==> NamesTo(ns', root, depth, m) <= toks && (depth[m] < |toks| ==> ns'[m].dir)
  }

  lemma ExtendsTwice(a: seq<Node>, b: seq<Node>, c: seq<Node>)
    requires Extends(a, b) && Extends(b, c)
    ensures Extends(a, c)
  {
  }

  class RamFs {
    const nodes: array<Node>
    const pool: array<Byte>
    var poolUsed: nat
    var root: nat
    ghost var depth: seq<nat>

    ghost predicate Valid()
      reads this, nodes, pool
    {
      Tree(nodes[..], root, depth) && PoolOk(nodes[..], poolUsed) && pool.Length == POOL && poolUsed <= POOL
    }

    /** `ramfs_init` */
    constructor ()
      ensures Valid() && fresh(nodes) && fresh(pool)
      ensures OnlyRootUsed(nodes[..], root)
    {
      nodes := new Node[MAX_NODES](_ => UNUSED);
      pool := new Byte[POOL](_ => 0);
      poolUsed, root := 0, 0;
      depth := seq(MAX_NODES, _ => 0);
      new;
      nodes[0] := Node(true, true, 0, "/", [], 0, 0, 0);
    }

    /** The search of `ramfs_alloc_node`. */
    method FreeNode() returns (idx: int)
      ensures idx == -1 ==> forall n :: 0 <= n < nodes.Length ==> nodes[n].used
      ensures idx != -1 ==> 0 <= idx < nodes.Length && !nodes[idx].used
    {
      for i := 0 to nodes.Length
        invariant forall n :: 0 <= n < i ==> nodes[n].used
      {
        if !nodes[i].used { return i; }
      }
      return -1;
    }

    /** `ramfs_find_child` */
    method FindIn(p: nat, name: string) returns (c: int)
      requires p < nodes.Length
      ensures c == Child(nodes[..], p, name)
    {
      var cs := nodes[p].children;
      for i := 0 to |cs|
        invariant FindChild(nodes[..], cs, name) == i + FindChild(nodes[..], cs[i..], name)
      {
        if cs[i] < nodes.Length && nodes[cs[i]].used && nodes[cs[i]].name == name { return cs[i]; }
      }
      return -1;
    }

    /** `ramfs_create_child` */
    method CreateChild(p: nat, name: string, dir: bool) returns (idx: int)
      requires Valid() && p < nodes.Length && nodes[p].used && nodes[p].dir && GoodName(name) && Child(nodes[..], p, name) == -1
      modifies nodes, this`depth
      ensures Valid() && Extends(old(nodes[..]), nodes[..])
      ensures idx < 0 ==> (idx == -1 || idx == -2) && nodes[..] == old(nodes[..])
      ensures idx == -1 <==> |old(nodes[p].children)| >= MAX_CHILDREN
      ensures idx < 0 ==> NoRoom(nodes[..], p) && depth == old(depth)
      ensures idx >= 0 ==> idx < nodes.Length && !old(nodes[idx].used) && nodes[..] == Attached(old(nodes[..]), p, idx, Node(true, dir, p, name, [], 0, 0, 0))
      ensures idx >= 0 ==> Child(nodes[..], p, name) == idx && StillFound(old(nodes[..]), nodes[..]) && nodes[idx].used && nodes[idx].dir == dir
    {
      hide Tree, PoolOk, Extends, Child, GoodName, StillFound;
      ExtendsItself(nodes[..]);
      if |nodes[p].children| >= MAX_CHILDREN { return -1; }
      idx := FreeNode();
      if idx < 0 { return -2; }
      var node := Node(true, dir, p, name, [], 0, 0, 0);
      Created(nodes[..], root, depth, poolUsed, p, idx, node);
      depth := depth[idx := depth[p] + 1];
      nodes[idx] := node;
      nodes[p] := nodes[p].(children := nodes[p].children + [idx]);
      assert nodes[..] == Attached(old(nodes[..]), p, idx, node);
    }

    /** `ramfs_resolve` when it makes the directories on the way. A negative code is -2 for a missing
        last component, -4 for a directory that cannot be made, -5 for a file in the middle. */
    method ResolveMaking(path: string) returns (code: int, parent: int, leaf: string)
      requires Valid()
      modifies nodes, this`depth
      ensures Valid() && Extends(old(nodes[..]), nodes[..])
      ensures code >= 0 ==> parent >= 0 && Resolved(nodes[..], root, path) == Found(code, parent, leaf) && code < nodes.Length && nodes[code].used
      ensures code == -2 ==> parent >= 0 && Resolved(nodes[..], root, path) == Missing(parent, leaf) && GoodName(leaf)
      ensures code == -2 ==> parent < nodes.Length && nodes[parent].used && nodes[parent].dir && Child(nodes[..], parent, leaf) == -1
      ensures code < 0 && code != -2 ==> parent == -1 && code in {-1, -4, -5}
      ensures code == -5 ==> Resolved(nodes[..], root, path) == NotDir
      ensures code == -4 ==> Blocked(nodes[..], root, Components(path))
      ensures code == -1 <==> Resolved(nodes[..], root, path) == NoPath
      ensures Along(old(nodes[..]), nodes[..], root, depth, Components(path))
      ensures NewAreDirs(old(nodes[..]), nodes[..])
      ensures code == -2 ==> Components(path) != [] && NamesTo(nodes[..], root, depth, parent) + [leaf] == Components(path)
    {
      hide Tree, PoolOk, Extends, GoodName, Components, Child, StillFound, Reach, Along, Blocked, NoRoom, NamesTo;
      AlongStart(nodes[..], root, depth, Components(path));
      ExtendsItself(nodes[..]);
      parent, leaf := -1, "";
      if path == "" || path[0] != '/' { return -1, parent, leaf; }
      RootIs(nodes[..], root, depth);
      var toks := Components(path);
      ComponentsGood(path);
      if toks == [] { return root, root, ""; }
      var cur: nat, i := root, 0;
      ReachStart(nodes[..], root);
      assert toks[..0] == [];
      while true
        invariant i < |toks| && Valid() && Extends(old(nodes[..]), nodes[..])
        invariant cur < nodes.Length && nodes[cur].used && nodes[cur].dir
        invariant Reach(nodes[..], root, toks[..i]) == cur
        invariant NewAreDirs(old(nodes[..]), nodes[..])
        invariant Along(old(nodes[..]), nodes[..], root, depth, toks) && NamesTo(nodes[..], root, depth, cur) == toks[..i]
        decreases |toks| - i
      {
        var child := FindIn(cur, toks[i]);
        WalkFrom(nodes[..], root, toks[..i], toks[i..]);
        assert toks[..i] + toks[i..] == toks && toks[i..][0] == toks[i];
        if i == |toks| - 1 {
          if child >= 0 { return child, cur, toks[i]; }
          return -2, cur, toks[i];
        }
        if child < 0 {
          ghost var before, depth0 := nodes[..], depth;
          RootIs(before, root, depth);
          child := CreateChild(cur, toks[i], true);
          ExtendsTwice(old(nodes[..]), before, nodes[..]);
          if child < 0 {
            IsBlocked(nodes[..], root, toks, i);
            return -4, parent, leaf;
          }
          AlongNext(old(nodes[..]), before, nodes[..], root, depth0, depth, cur, child, toks, i);
          ReachKept(before, nodes[..], root, toks[..i]);
        }
        if !nodes[child].dir { return -5, parent, leaf; }
        ReachNext(nodes[..], root, toks[..i], toks[i]);
        ChildNames(nodes[..], root, depth, cur, toks[i]);
        assert toks[..i + 1] == toks[..i] + [toks[i]];
        cur := child;
        i := i + 1;
      }
    }

    // ----- Files

    ghost function Content(n: nat): seq<Byte>
      requires n < nodes.Length
      reads nodes, pool
    {
      Bytes(nodes[n], pool[..])
    }

    /** `ramfs_alloc_bytes`: pool space is never given back. */
    method AllocBytes(len: nat) returns (ok: bool, off: nat)
      requires poolUsed <= POOL && len > 0
      modifies this`poolUsed
      ensures ok <==> old(poolUsed) + len <= POOL
      ensures ok ==> off == old(poolUsed) && poolUsed == off + len
      ensures !ok ==> poolUsed == old(poolUsed)
    {
      if poolUsed + len > POOL { return false, 0; }
      off := poolUsed;
      poolUsed := poolUsed + len;
      ok := true;
    }

    /** The second half of `ramfs_op_create_file`: the bytes of file `n` are replaced. */
    method Fill(n: nat, data: seq<Byte>) returns (code: int)
      requires Valid() && n < nodes.Length && nodes[n].used && !nodes[n].dir
      modifies nodes, pool, this`poolUsed
      ensures Valid() && Extends(old(nodes[..])[n := UNUSED], nodes[..]) && SamePlace(old(nodes[n]), nodes[n]) && nodes[n].name == old(nodes[n].name)
      ensures forall m :: 0 <= m < nodes.Length && m != n ==> nodes[m] == old(nodes[m])
      ensures (code == 0 || code == -4) && nodes[n].used && !nodes[n].dir
      ensures code == -4 <==> data != [] && old(nodes[n].capacity) < |data| && old(poolUsed) + |data| > POOL
      ensures code == 0 ==> Content(n) == data
      ensures code != 0 ==> nodes[..] == old(nodes[..]) && pool[..] == old(pool[..]) && poolUsed == old(poolUsed)
      ensures forall m :: 0 <= m < nodes.Length && m != n && nodes[m].used ==> Content(m) == old(Content(m))
    {
      hide Tree, Extends, SamePlace;
      var node := nodes[n];
      ghost var ns, used, before := nodes[..], poolUsed, pool[..];
      ExtendsExcept(ns, n);
      if |data| == 0 {
        nodes[n] := node.(data := 0, size := 0, capacity := 0);
        Refilled(ns, root, depth, used, used, n, 0, 0);
        assert nodes[..] == ns[n := node.(data := 0, size := 0, capacity := 0)];
        return 0;
      }
      var ok, dst := true, node.data;
      if node.capacity < |data| { ok, dst := AllocBytes(|data|); }
      if !ok { return -4; }
      Refilled(ns, root, depth, used, poolUsed, n, dst, |data|);
      WriteBytes(dst, data);
      nodes[n] := node.(data := dst, size := |data|, capacity := |data|);
      assert nodes[..] == ns[n := node.(data := dst, size := |data|, capacity := |data|)];
      OthersKept(ns, before, pool[..], n, dst, |data|);
      code := 0;
    }

    /** `memcpy` into the pool. */
    method WriteBytes(off: nat, data: seq<Byte>)
      requires off + |data| <= pool.Length
      modifies pool
      ensures pool[off..off + |data|] == data
      ensures forall k :: 0 <= k < pool.Length && !(off <= k < off + |data|) ==> pool[k] == old(pool[k])
    {
      for i := 0 to |data|
        invariant pool[off..off + i] == data[..i]
        invariant forall k :: 0 <= k < pool.Length && !(off <= k < off + i) ==> pool[k] == old(pool[k])
      {
        pool[off + i] := data[i];
        assert pool[off..off + i + 1] == pool[off..off + i] + [data[i]];
      }
    }

    /** Why a node for a path cannot be made. */
    ghost predicate Refused(path: string)
      reads this, nodes
    {
      Resolved(nodes[..], root, path) in {NoPath, NotDir} || Blocked(nodes[..], root, Components(path))
    }

    /** `ramfs_op_create_file`, which `ramfs_op_write_file` calls too: afterwards the path holds the
        data and every other file its own. */
    method CreateFile(path: string, data: seq<Byte>) returns (code: int, ghost n: nat)
      requires Valid()
      modifies nodes, pool, this`depth, this`poolUsed
      ensures Valid() && code <= 0 && n < nodes.Length
      ensures code == 0 ==> nodes[n].used && !nodes[n].dir && Content(n) == data
      ensures code == 0 ==> Resolved(nodes[..], root, path).Found? && Resolved(nodes[..], root, path).node == n
      ensures code == -4 ==> Resolved(nodes[..], root, path).Found? && Resolved(nodes[..], root, path).node == n && !nodes[n].dir
      ensures code == -4 ==> nodes[n].capacity < |data| && poolUsed + |data| > POOL
      ensures code == -3 ==> Resolved(nodes[..], root, path).Found? && Resolved(nodes[..], root, path).node == n && nodes[n].dir
      ensures code < 0 && code != -3 && code != -4 ==> Refused(path)
      ensures Along(old(nodes[..]), nodes[..], root, depth, Components(path))
      ensures Extends(if code == 0 then old(nodes[..])[n := UNUSED] else old(nodes[..]), nodes[..])
      ensures code == 0 && old(nodes[n].used) ==> !old(nodes[n].dir) && nodes[n].parent == old(nodes[n].parent) && nodes[n].name == old(nodes[n].name)
      ensures forall m :: 0 <= m < nodes.Length && old(nodes[m].used) && (code == 0 ==> m != n) ==> Content(m) == old(Content(m))
    {
      hide Tree, PoolOk, Extends, GoodName, Resolved, SamePlace, Along, Blocked, Components;
      RootIs(nodes[..], root, depth);
      n := root;
      ghost var ns := nodes[..];
      var node;
      code, node := OpenOrCreate(path);
      ContentKept(ns, nodes[..]);
      if code != 0 { return; }
      n := node;
      if nodes[node].dir { return -3, n; }
      ghost var ns2 := nodes[..];
      code := Fill(node, data);
      FillKept(ns, ns2, nodes[..], n);
      AlongKept(ns, ns2, nodes[..], root, depth, Components(path));
      if code == 0 { RefillResolves(ns2, nodes[..], root, depth, path); }
    }

    /** The first half of `ramfs_op_create_file`: the node of the path, made if it is missing. */
    method OpenOrCreate(path: string) returns (code: int, node: int)
      requires Valid()
      modifies nodes, this`depth
      ensures Valid() && Extends(old(nodes[..]), nodes[..]) && (code == 0 || code == -1 || code == -2)
      ensures code == 0 ==> 0 <= node < nodes.Length && nodes[node].used && Resolved(nodes[..], root, path).Found? && Resolved(nodes[..], root, path).node == node
      ensures code != 0 ==> Refused(path)
      ensures Along(old(nodes[..]), nodes[..], root, depth, Components(path))
      ensures forall m :: 0 <= m < nodes.Length && old(nodes[m].used) ==> Content(m) == old(Content(m))
    {
      hide Tree, PoolOk, Extends, GoodName, Resolved, Along, Blocked, Components, NoRoom, Child, StillFound;
      ghost var ns := nodes[..];
      var rc, parent, leaf := ResolveMaking(path);
      ghost var ns1, depth1 := nodes[..], depth;
      ContentKept(ns, ns1);
      if rc == -2 {
        node := CreateChild(parent, leaf, false);
        ExtendsTwice(ns, ns1, nodes[..]);
        ContentKept(ns1, nodes[..]);
        if node < 0 {
          LastBlocked(nodes[..], root, path);
          return -1, node;
        }
        AlongNext(ns, ns1, nodes[..], root, depth1, depth, parent, node, Components(path), |Components(path)| - 1);
        AttachResolves(ns1, root, depth1, path, parent, leaf, node, nodes[..]);
        return 0, node;
      }
      if rc < 0 { return -2, rc; }
      return 0, rc;
    }

    /** `ramfs_op_mkdir` */
    method Mkdir(path: string) returns (code: int)
      requires Valid()
      modifies nodes, this`depth
      ensures Valid() && Extends(old(nodes[..]), nodes[..])
      ensures code == 0 ==> Resolved(nodes[..], root, path).Found? && Resolved(nodes[..], root, path).node < nodes.Length && nodes[Resolved(nodes[..], root, path).node].dir
      ensures code == -1 ==> Resolved(nodes[..], root, path).Found? && Resolved(nodes[..], root, path).node < nodes.Length && !nodes[Resolved(nodes[..], root, path).node].dir
      ensures code in {0, -1} || ((code == -2 || code == -3) && Refused(path))
      ensures NewAreDirs(old(nodes[..]), nodes[..])
      ensures Along(old(nodes[..]), nodes[..], root, depth, Components(path))
      ensures forall m :: 0 <= m < nodes.Length && old(nodes[m].used) ==> Content(m) == old(Content(m))
    {
      hide Tree, PoolOk, Extends, GoodName, Resolved, Along, Blocked, Components, NoRoom, Child, StillFound;
      ghost var ns := nodes[..];
      var rc, parent, leaf := ResolveMaking(path);
      ghost var ns1, depth1 := nodes[..], depth;
      ContentKept(ns, ns1);
      if rc >= 0 { return if nodes[rc].dir then 0 else -1; }
      if rc == -2 {
        var created := CreateChild(parent, leaf, true);
        ExtendsTwice(ns, ns1, nodes[..]);
        ContentKept(ns1, nodes[..]);
        if created >= 0 {
          AlongNext(ns, ns1, nodes[..], root, depth1, depth, parent, created, Components(path), |Components(path)| - 1);
          AttachResolves(ns1, root, depth1, path, parent, leaf, created, nodes[..]);
          return 0;
        }
        LastBlocked(nodes[..], root, path);
        return -2;
      }
      return -3;
    }

    /** `ramfs_resolve` without creating anything. */
    method Resolve(path: string) returns (code: int, parent: int, leaf: string)
      requires Valid()
      ensures code >= 0 ==> parent >= 0 && Resolved(nodes[..], root, path) == Found(code, parent, leaf) && code < nodes.Length && nodes[code].used
      ensures code == -2 ==> parent >= 0 && Resolved(nodes[..], root, path) == Missing(parent, leaf) && GoodName(leaf)
      ensures code == -2 ==> parent < nodes.Length && nodes[parent].used && nodes[parent].dir && Child(nodes[..], parent, leaf) == -1
      ensures code < 0 && code != -2 ==> parent == -1 && !Resolved(nodes[..], root, path).Found? && !Resolved(nodes[..], root, path).Missing?
    {
      hide Tree, PoolOk, GoodName, Components, Child, Reach;
      parent, leaf := -1, "";
      if path == "" || path[0] != '/' { return -1, parent, leaf; }
      RootIs(nodes[..], root, depth);
      var toks := Components(path);
      ComponentsGood(path);
      if toks == [] { return root, root, ""; }
      var cur: nat, i := root, 0;
      while true
        invariant i < |toks| && cur < nodes.Length && nodes[cur].used && nodes[cur].dir
        invariant Walk(nodes[..], root, toks) == Walk(nodes[..], cur, toks[i..])
        decreases |toks| - i
      {
        var child := FindIn(cur, toks[i]);
        if i == |toks| - 1 {
          if child >= 0 { return child, cur, toks[i]; }
          return -2, cur, toks[i];
        }
        if child < 0 { return -3, parent, leaf; }
        if !nodes[child].dir { return -5, parent, leaf; }
        cur := child;
        i := i + 1;
      }
    }

    /** `ramfs_op_read_file` */
    method ReadFile(path: string, cap: nat) returns (code: int, out: seq<Byte>)
      requires Valid()
      ensures code == -1 <==> !Resolved(nodes[..], root, path).Found?
      ensures code != -1 ==> var n := Resolved(nodes[..], root, path).node;
        && n < nodes.Length && nodes[n].used && (code == -2 <==> nodes[n].dir)
        && (code == -3 <==> !nodes[n].dir && cap < nodes[n].size) && (code == 0 ==> out == Content(n)) && (code == 0 || code == -2 || code == -3)
    {
      hide Tree, Extends, GoodName, Resolved;
      out := [];
      var rc, parent, leaf := Resolve(path);
      if rc < 0 { return -1, out; }
      if nodes[rc].dir { return -2, out; }
      if cap < nodes[rc].size { return -3, out; }
      assert RangeOk(nodes[rc], poolUsed);
      if nodes[rc].size > 0 { out := pool[nodes[rc].data..nodes[rc].data + nodes[rc].size]; }
      code := 0;
    }

    // ----- Removing and renaming

    /** `ramfs_detach_child`: the entries behind the child move down by one. */
    method DetachChild(p: nat, child: nat) returns (ok: bool, ghost k: nat)
      requires p < nodes.Length
      modifies nodes
      ensures ok <==> child in old(nodes[p].children)
      ensures !ok ==> nodes[..] == old(nodes[..])
      ensures ok ==> k < |old(nodes[p].children)| && old(nodes[p].children)[k] == child
      ensures ok ==> var cs := old(nodes[p].children); nodes[..] == old(nodes[..])[p := old(nodes[p]).(children := cs[..k] + cs[k + 1..])]
    {
      k := 0;
      var cs, idx := nodes[p].children, 0;
      while idx < |cs| && cs[idx] != child
        invariant idx <= |cs| && child !in cs[..idx]
      {
        idx := idx + 1;
      }
      if idx == |cs| { return false, k; }
      k := idx;
      ghost var was := cs;
      for i := idx to |cs| - 1
        invariant |cs| == |was| && forall j :: i < j < |was| ==> cs[j] == was[j]
        invariant cs[..idx] == was[..idx] && forall j :: idx <= j < i ==> cs[j] == was[j + 1]
      {
        cs := cs[i := cs[i + 1]];
      }
      assert cs[..|cs| - 1] == was[..k] + was[k + 1..];
      nodes[p] := nodes[p].(children := cs[..|cs| - 1]);
      ok := true;
    }

    /** `ramfs_op_remove`: a file or an empty directory other than the root goes, and nothing else. */
    method Remove(path: string) returns (code: int)
      requires Valid()
      modifies nodes
      ensures Valid() && (code == 0 || code == -1)
      ensures code == 0 <==> old(Removable(path))
      ensures code == -1 ==> nodes[..] == old(nodes[..])
      ensures code == 0 ==> var o := old(Resolved(nodes[..], root, path)); TakenOut(old(nodes[..]), nodes[..], o.node) && Resolved(nodes[..], root, path) == Missing(o.parent, o.leaf)
    {
      hide Tree, PoolOk, Resolved, TakenOut, Child;
      code := -1;
      if path == "" || path[0] != '/' || |path| == 1 { OnlyRoot(nodes[..], root, path); return; }
      ghost var ns := nodes[..];
      var node, parent, leaf := Resolve(path);
      if node < 0 || parent < 0 { return; }
      if nodes[node].dir && |nodes[node].children| != 0 { return; }
      Lists(ns, root, depth, path);
      var ok, k := DetachChild(parent, node);
      if !ok { return; }
      nodes[node] := UNUSED;
      assert nodes[..] == Detached(ns, parent, k);
      TakesOut(ns, root, depth, poolUsed, path, k);
      code := 0;
    }

    /** The path names a file or an empty directory other than the root. */
    ghost predicate Removable(path: string)
      reads this, nodes
    {
      var o := Resolved(nodes[..], root, path);
      o.Found? && o.node < nodes.Length && o.node != root && nodes[o.node].children == []
    }

    /** `ramfs_op_rename`. Within one directory the node gets the new name and keeps its place. A move
        to another directory takes the node out first and only then looks whether there is room, and
        it does not look whether the new directory lies below the node. */
    method Rename(oldPath: string, newPath: string) returns (code: int)
      requires Valid()
      modifies nodes, this`depth
      ensures var a, b := old(Resolved(nodes[..], root, oldPath)), old(Resolved(nodes[..], root, newPath));
        a.Found? && b.Missing? && a.parent == b.parent && oldPath != "/" ==>
          code == 0 && Valid() && a.node < nodes.Length && nodes[..] == old(nodes[..])[a.node := old(nodes[a.node]).(name := b.leaf)]
          && (a.node != root ==> Resolved(nodes[..], root, newPath) == Found(a.node, b.parent, b.leaf))
      ensures var a, b := old(Resolved(nodes[..], root, oldPath)), old(Resolved(nodes[..], root, newPath));
        a.Found? && b.Missing? && a.parent != b.parent && oldPath != "/" ==>
          && MovedOver(old(nodes[..]), nodes[..], root, old(depth), depth, oldPath, newPath, code)
          && (Valid() <==> a.node == root || Moveable(old(nodes[..]), root, old(depth), a.node, b.parent))
      ensures !old(Resolved(nodes[..], root, oldPath)).Found? || !old(Resolved(nodes[..], root, newPath)).Missing? || oldPath == "/" ==>
        code == -1 && nodes[..] == old(nodes[..]) && Valid()
      ensures SameFiles(old(nodes[..]), nodes[..])
    {
      hide Tree, PoolOk, Resolved, Child, GoodName, Under, Moved, Lost, Carried, Sensible, SameFiles, MovedOver, Moveable;
      code := -1;
      ghost var ns := nodes[..];
      FilesStay(ns);
      if oldPath == "" || newPath == "" || oldPath[0] != '/' || newPath[0] != '/' {
        if oldPath == "" || oldPath[0] != '/' { OnlyRoot(ns, root, oldPath); } else { OnlyRoot(ns, root, newPath); }
        return;
      }
      if oldPath == "/" || newPath == "/" {
        if newPath == "/" { OnlyRoot(ns, root, newPath); }
        return;
      }
      var node, oldParent, oldLeaf := Resolve(oldPath);
      if node < 0 { return; }
      var target, newParent, newLeaf := Resolve(newPath);
      if newParent < 0 || target >= 0 { return; }
      Placed(ns, root, depth, oldPath);
      Lists(ns, root, depth, oldPath);
      if oldParent != newParent {
        ghost var k;
        code, k := Relocate(oldParent, node, newParent, newLeaf);
        if code == -1 {
          NoMove(ns, nodes[..], root, depth, k, oldPath, newPath);
          return;
        }
        Movable(ns, root, depth, oldPath, newPath, k);
        ghost var moved, depth0 := nodes[..][node := nodes[node].(name := newLeaf)], depth;
        MovedFiles(ns, oldParent, k, newParent, newLeaf, poolUsed);
        MoveResult(ns, root, depth, k, oldPath, newPath);
        if Moveable(ns, root, depth, node, newParent) { depth := MovedDepth(ns, root, depth, node, newParent); }
        nodes[node] := nodes[node].(name := newLeaf);
        assert nodes[..] == moved;
        return;
      }
      nodes[node] := nodes[node].(name := newLeaf);
      code := 0;
      assert nodes[..] == ns[node := ns[node].(name := newLeaf)];
      Renames(ns, root, depth, poolUsed, oldPath, newPath);
      RenamedFiles(ns, node, newLeaf);
    }

    /** The part of `ramfs_op_rename` for two different directories, but for the new name. */
    method Relocate(oldParent: nat, node: nat, newParent: nat, ghost name: string) returns (code: int, ghost k: nat)
      requires oldParent < nodes.Length && node < nodes.Length && newParent < nodes.Length && oldParent != newParent
      modifies nodes
      ensures code == (if node in old(nodes[oldParent].children) && |old(nodes[newParent].children)| < MAX_CHILDREN then 0 else -1)
      ensures node !in old(nodes[oldParent].children) ==> nodes[..] == old(nodes[..])
      ensures node in old(nodes[oldParent].children) ==> k < |old(nodes[oldParent].children)| && old(nodes[oldParent].children)[k] == node
      ensures node in old(nodes[oldParent].children) && code == -1 ==> nodes[..] == Unlinked(old(nodes[..]), oldParent, k)
      ensures code == 0 ==> nodes[..][node := nodes[node].(name := name)] == Moved(old(nodes[..]), oldParent, k, newParent, name)
    {
      ghost var ns := nodes[..];
      var ok;
      ok, k := DetachChild(oldParent, node);
      if !ok { return -1, k; }
      assert nodes[..] == Unlinked(ns, oldParent, k);
      if |nodes[newParent].children| >= MAX_CHILDREN { return -1, k; }
      nodes[newParent] := nodes[newParent].(children := nodes[newParent].children + [node]);
      nodes[node] := nodes[node].(parent := newParent);
      assert nodes[..][node := nodes[node].(name := name)] == Moved(ns, oldParent, k, newParent, name);
      code := 0;
    }

    /** `fs_build_ramfs_path` of kernel/src/fs/fs.c: the path of a node, if it fits. */
    method BuildPath(n: int) returns (code: int, out: string)
      requires Valid()
      ensures code == 0 || code == -1
      ensures code == 0 <==> 0 <= n < nodes.Length && nodes[n].used && (n == root || |PathOf(NamesTo(nodes[..], root, depth, n))| + 1 < MAX_PATH)
      ensures code == 0 ==> out == (if n == root then "/" else PathOf(NamesTo(nodes[..], root, depth, n)))
      ensures code == 0 ==> Resolved(nodes[..], root, out).Found? && Resolved(nodes[..], root, out).node == n
    {
      hide Tree, PoolOk, Resolved, Child, PathOf;
      out := "";
      if n < 0 || n >= nodes.Length || !nodes[n].used { return -1, out; }
      if n == root { OnlyRoot(nodes[..], root, "/"); return 0, "/"; }
      ghost var ns := nodes[..];
      ghost var names := NamesTo(ns, root, depth, n);
      var chain: seq<nat>, cur := [], n;
      DepthBound(ns, root, depth, n);
      RootIs(ns, root, depth);
      while cur != root && |chain| < MAX_NODES
        invariant 0 <= cur < nodes.Length && nodes[cur].used && |chain| + depth[cur] == depth[n]
        invariant forall i :: 0 <= i < |chain| ==> chain[i] < nodes.Length
        invariant forall i :: 0 <= i < |chain| ==> ns[chain[i]].name == names[depth[n] - 1 - i]
        invariant NamesTo(ns, root, depth, cur) == names[..depth[cur]]
        decreases depth[cur]
      {
        NamesStep(ns, root, depth, cur);
        chain := chain + [cur];
        cur := nodes[cur].parent;
      }
      RootDepth(ns, root, depth);
      if |chain| <= 0 { return -1, out; }
      NamesGood(ns, root, depth, n);
      out := "/";
      var i := |chain| - 1;
      PathStart();
      assert names[..0] == [];
      while i >= 0
        invariant -1 <= i < |chain| && |chain| == |names|
        invariant i >= 0 ==> out == PathOf(names[..|names| - 1 - i]) + "/"
        invariant i == -1 ==> out == PathOf(names) && |out| + 1 < MAX_PATH
      {
        var name := nodes[chain[i]].name;
        assert GoodName(names[|names| - 1 - i]);
        PathLonger(names, |names| - 1 - i);
        if |name| == 0 || |out| + |name| + 1 >= MAX_PATH { return -1, out; }
        out := out + name;
        if i > 0 { out := out + "/"; }
        i := i - 1;
        assert i == -1 ==> names[..|names|] == names;
      }
      code := 0;
      ResolvesToItself(ns, root, depth, n);
    }
  }

  /** The outcome of resolving an extended table, and what creating the last component makes of it. */
  lemma AttachResolves(ns: seq<Node>, root: nat, depth: seq<nat>, path: string, p: nat, leaf: string, c: nat, ns': seq<Node>)
    requires Tree(ns, root, depth) && Resolved(ns, root, path) == Missing(p, leaf) && p < |ns| && ns[p].used
    requires c < |ns| && !ns[c].used && Child(ns', p, leaf) == c && exists node :: ns' == Attached(ns, p, c, node)
    ensures Resolved(ns', root, path) == Found(c, p, leaf)
  {
    var node :| ns' == Attached(ns, p, c, node);
    hide Components, Child, Walk;
    assert AgreeAbove(ns, ns', depth, p);
    ResolveAgain(ns, ns', root, depth, path);
  }

  lemma ContentKept(ns: seq<Node>, ns': seq<Node>)
    requires Extends(ns, ns')
    ensures |ns'| == |ns| && forall m :: 0 <= m < |ns| && ns[m].used ==> ns'[m].used && ns'[m].data == ns[m].data && ns'[m].size == ns[m].size
  {
  }

  lemma FillKept(ns: seq<Node>, ns2: seq<Node>, ns3: seq<Node>, n: nat)
    requires Extends(ns, ns2) && n < |ns2| == |ns3|
    requires (forall m :: 0 <= m < |ns3| && m != n ==> ns3[m] == ns2[m]) && SamePlace(ns2[n], ns3[n]) && ns3[n].name == ns2[n].name
    ensures Extends(ns[n := UNUSED], ns3) && (ns3 == ns2 ==> Extends(ns, ns3))
    ensures ns[n].used ==> ns[n].dir == ns3[n].dir && ns3[n].parent == ns[n].parent && ns3[n].name == ns[n].name
    ensures forall m :: 0 <= m < |ns2| ==> ns3[m].used == ns2[m].used && ns3[m].parent == ns2[m].parent && ns3[m].name == ns2[m].name && ns3[m].dir == ns2[m].dir
  {
  }

  /** Changing the data of a file leaves paths as they are. */
  lemma RefillResolves(ns: seq<Node>, ns': seq<Node>, root: nat, depth: seq<nat>, path: string)
    requires Tree(ns, root, depth) && Resolved(ns, root, path).Found? && |ns'| == |ns|
    requires var n := Resolved(ns, root, path).node;
      && n < |ns| && !ns[n].dir && SamePlace(ns[n], ns'[n]) && ns'[n].name == ns[n].name
      && forall m :: 0 <= m < |ns| && m != n ==> ns'[m] == ns[m]
    ensures Resolved(ns', root, path) == Resolved(ns, root, path)
  {
    var n, p, leaf := Resolved(ns, root, path).node, Resolved(ns, root, path).parent, Resolved(ns, root, path).leaf;
    RootIs(ns, root, depth);
    assert Components(path) != [];
    FoundBelow(ns, root, depth, path);
    hide Components, Walk, Resolved;
    ChildDepth(ns, root, depth, p, leaf);
    assert AgreeAbove(ns, ns', depth, p);
    ResolveAgain(ns, ns', root, depth, path);
    ChildSame(ns, ns', p, leaf);
  }

  lemma ChildSame(ns: seq<Node>, ns': seq<Node>, p: nat, x: string)
    requires p < |ns| == |ns'| && ns'[p].children == ns[p].children
    requires forall m :: 0 <= m < |ns| ==> ns'[m].used == ns[m].used && ns'[m].name == ns[m].name
    ensures Child(ns', p, x) == Child(ns, p, x)
  {
    FindAlike(ns, ns', ns[p].children, x);
  }

  /** The parent of what a path resolves to is in the tree. */
  lemma FoundBelow(ns: seq<Node>, root: nat, depth: seq<nat>, path: string)
    requires Tree(ns, root, depth) && Resolved(ns, root, path).Found? && Components(path) != []
    ensures var o := Resolved(ns, root, path);
      path != "" && path[0] == '/' && o.parent < |ns| && ns[o.parent].used && o.node == Child(ns, o.parent, o.leaf)
  {
    RootIs(ns, root, depth);
    var toks := Components(path);
    WalkReaches(ns, root, toks);
    ReachDepth(ns, root, depth, root, toks[..|toks| - 1]);
  }

  /** A new range for one file: its own, shortened, or one behind all ranges in use. */
  lemma Refilled(ns: seq<Node>, root: nat, depth: seq<nat>, used: nat, used': nat, n: nat, data: nat, len: nat)
    requires Tree(ns, root, depth) && PoolOk(ns, used) && used <= used' && n < |ns| && ns[n].used && !ns[n].dir
    requires len == 0 || (data == ns[n].data && len <= ns[n].capacity) || (data >= used && data + len <= used')
    requires len == 0 || data + len <= used'
    ensures var node := ns[n].(data := data, size := len, capacity := len); var ns' := ns[n := node];
      Tree(ns', root, depth) && PoolOk(ns', used') && Extends(ns[n := UNUSED], ns') && SamePlace(ns[n], node)
    ensures forall m :: 0 <= m < |ns| && m != n && ns[m].used ==>
      (ns[m].capacity == 0 || len == 0 || ns[m].data + ns[m].capacity <= data || data + len <= ns[m].data) && ns[m].size <= ns[m].capacity
  {
    ReplaceKeeps(ns, root, depth, n, ns[n].(data := data, size := len, capacity := len));
    hide Tree;
    RangeFree(ns, used, n, data, len);
    PoolRefilled(ns, used, used', n, data, len);
    hide PoolOk;
  }

  /** Bytes outside the range written are the same. */
  lemma OthersKept(ns: seq<Node>, before: seq<Byte>, after: seq<Byte>, n: nat, dst: nat, len: nat)
    requires |before| == |after| && forall x :: 0 <= x < |before| && !(dst <= x < dst + len) ==> after[x] == before[x]
    requires forall m :: 0 <= m < |ns| && m != n && ns[m].used ==>
      (ns[m].capacity == 0 || len == 0 || ns[m].data + ns[m].capacity <= dst || dst + len <= ns[m].data) && ns[m].size <= ns[m].capacity
    ensures forall m :: 0 <= m < |ns| && m != n && ns[m].used ==> Bytes(ns[m], after) == Bytes(ns[m], before)
  {
  }

  lemma ExtendsExcept(ns: seq<Node>, n: nat)
    requires n < |ns|
    ensures Extends(ns[n := UNUSED], ns) && SamePlace(ns[n], ns[n])
  {
  }

  lemma RangeFree(ns: seq<Node>, used: nat, n: nat, data: nat, len: nat)
    requires PoolOk(ns, used) && n < |ns| && ns[n].used
    requires len == 0 || (data == ns[n].data && len <= ns[n].capacity) || data >= used
    ensures forall m :: 0 <= m < |ns| && m != n && ns[m].used ==>
      (ns[m].capacity == 0 || len == 0 || ns[m].data + ns[m].capacity <= data || data + len <= ns[m].data) && ns[m].size <= ns[m].capacity
  {
    assert RangeOk(ns[n], used);
    forall m | 0 <= m < |ns| && m != n && ns[m].used
      ensures (ns[m].capacity == 0 || len == 0 || ns[m].data + ns[m].capacity <= data || data + len <= ns[m].data) && ns[m].size <= ns[m].capacity
    {
      assert RangeOk(ns[m], used);
      assert if m < n then Apart(ns[m], ns[n]) else Apart(ns[n], ns[m]);
    }
  }

  lemma PoolRefilled(ns: seq<Node>, used: nat, used': nat, n: nat, data: nat, len: nat)
    requires PoolOk(ns, used) && used <= used' && n < |ns| && ns[n].used && !ns[n].dir
    requires len == 0 || data + len <= used'
    requires forall m :: 0 <= m < |ns| && m != n && ns[m].used ==>
      (ns[m].capacity == 0 || len == 0 || ns[m].data + ns[m].capacity <= data || data + len <= ns[m].data) && ns[m].size <= ns[m].capacity
    ensures PoolOk(ns[n := ns[n].(data := data, size := len, capacity := len)], used')
    ensures Extends(ns[n := UNUSED], ns[n := ns[n].(data := data, size := len, capacity := len)])
  {
    var ns' := ns[n := ns[n].(data := data, size := len, capacity := len)];
    forall m | 0 <= m < |ns'| && ns'[m].used
      ensures RangeOk(ns'[m], used')
    {
      assert RangeOk(ns[m], used);
    }
    forall k, m | 0 <= k < m < |ns'| && ns'[k].used && ns'[m].used
      ensures Apart(ns'[k], ns'[m])
    {
      assert Apart(ns[k], ns[m]);
    }
  }

  /** A name `ramfs_find_child` does not find is no child's name. */
  lemma NoChildNamed(ns: seq<Node>, root: nat, depth: seq<nat>, p: nat, name: string)
    requires Tree(ns, root, depth) && p < |ns| && ns[p].used && Child(ns, p, name) == -1
    ensures forall i :: 0 <= i < |ns[p].children| && ns[p].children[i] < |ns| ==> ns[ns[p].children[i]].name != name
  {
    assert NodeOk(ns, root, depth, p);
    forall i | 0 <= i < |ns[p].children|
      ensures ns[ns[p].children[i]].name != name
    {
      assert ChildOk(ns, root, p, ns[p].children[i]);
    }
  }

  lemma ExtendsItself(ns: seq<Node>)
    ensures Extends(ns, ns)
  {
  }

  /** All that creating a node below a directory keeps. */
  lemma Created(ns: seq<Node>, root: nat, depth: seq<nat>, used: nat, p: nat, c: nat, node: Node)
    requires Tree(ns, root, depth) && PoolOk(ns, used) && p < |ns| && ns[p].used && ns[p].dir && |ns[p].children| < MAX_CHILDREN
    requires c < |ns| && !ns[c].used && node == Node(true, node.dir, p, node.name, [], 0, 0, 0) && GoodName(node.name)
    requires Child(ns, p, node.name) == -1
    ensures |ns| == |depth| && Tree(Attached(ns, p, c, node), root, depth[c := depth[p] + 1]) && PoolOk(Attached(ns, p, c, node), used)
    ensures Extends(ns, Attached(ns, p, c, node)) && Child(Attached(ns, p, c, node), p, node.name) == c
    ensures StillFound(ns, Attached(ns, p, c, node))
  {
    AttachStillFinds(ns, root, depth, p, c, node);
    hide StillFound;
    NoChildNamed(ns, root, depth, p, node.name);
    AttachKeeps(ns, root, depth, p, c, node);
    AttachPool(ns, used, p, c, node);
    AttachFinds(ns, root, depth, p, c, node);
  }

  lemma AttachPool(ns: seq<Node>, used: nat, p: nat, c: nat, node: Node)
    requires PoolOk(ns, used) && p < |ns| && c < |ns| && ns[p].used && !ns[c].used && node.capacity == 0 && node.size == 0
    ensures PoolOk(Attached(ns, p, c, node), used) && Extends(ns, Attached(ns, p, c, node))
  {
  }

  lemma AttachFinds(ns: seq<Node>, root: nat, depth: seq<nat>, p: nat, c: nat, node: Node)
    requires CanAttach(ns, root, depth, p, c, node) && Child(ns, p, node.name) == -1
    ensures Child(Attached(ns, p, c, node), p, node.name) == c
  {
    AttachKeeps(ns, root, depth, p, c, node);
    var ns' := Attached(ns, p, c, node);
    ChildFound(ns', root, depth[c := depth[p] + 1], c);
  }

  // ----- Removing and renaming

  /** Everything but node `n` is as before. */
  ghost predicate TakenOut(ns: seq<Node>, ns': seq<Node>, n: nat) {
    && |ns'| == |ns| && n < |ns| && ns'[n] == UNUSED
    && forall m :: 0 <= m < |ns| && m != n ==> ns'[m].used == ns[m].used && (ns[m].used ==> Same(ns[m], ns'[m]) && forall c :: c in ns'[m].children <==> c in ns[m].children && c != n)
  }

  /** Without components there is only the root. */
  lemma OnlyRoot(ns: seq<Node>, root: nat, path: string)
    requires path == "" || path[0] != '/' || |path| == 1
    ensures Resolved(ns, root, path) == if path == "/" then Found(root, root, "") else NoPath
  {
    if path == "/" { assert SkipSlashes("/"[1..]) == ""; }
  }

  /** What a path resolves to is the root or a child of the parent reported with it. */
  lemma Placed(ns: seq<Node>, root: nat, depth: seq<nat>, path: string)
    requires Tree(ns, root, depth) && Resolved(ns, root, path).Found?
    ensures var o := Resolved(ns, root, path);
      && o.node < |ns| && o.parent < |ns| && ns[o.parent].used
      && (o.node != root ==> Components(path) != [] && path != "" && path[0] == '/' && o.node == Child(ns, o.parent, o.leaf) && ns[o.node].parent == o.parent)
      && (o.node == root ==> o.parent == root && Components(path) == [])
  {
    RootIs(ns, root, depth);
    if Components(path) != [] {
      FoundBelow(ns, root, depth, path);
      var o := Resolved(ns, root, path);
      hide Components, Walk, Resolved;
      ChildDepth(ns, root, depth, o.parent, o.leaf);
    }
  }

  lemma Lists(ns: seq<Node>, root: nat, depth: seq<nat>, path: string)
    requires Tree(ns, root, depth) && Resolved(ns, root, path).Found?
    ensures var o := Resolved(ns, root, path);
      && o.node < |ns| && o.parent < |ns| && (o.node in ns[o.parent].children <==> o.node != root)
      && (!ns[o.node].dir ==> ns[o.node].children == [])
  {
    Placed(ns, root, depth, path);
    var o := Resolved(ns, root, path);
    hide Components, Walk, Resolved;
    assert NodeOk(ns, root, depth, o.parent);
    if o.node == root {
      forall i | 0 <= i < |ns[root].children|
        ensures ns[root].children[i] != root
      {
        assert ChildOk(ns, root, root, ns[root].children[i]);
      }
    }
    Used(ns, root, depth, path);
    assert NodeOk(ns, root, depth, o.node);
  }

  lemma Used(ns: seq<Node>, root: nat, depth: seq<nat>, path: string)
    requires Tree(ns, root, depth) && Resolved(ns, root, path).Found?
    ensures Resolved(ns, root, path).node < |ns| && ns[Resolved(ns, root, path).node].used
  {
    RootIs(ns, root, depth);
  }

  lemma TakesOut(ns: seq<Node>, root: nat, depth: seq<nat>, used: nat, path: string, k: nat)
    requires Tree(ns, root, depth) && PoolOk(ns, used) && Resolved(ns, root, path).Found?
    requires var o := Resolved(ns, root, path);
      o.parent < |ns| && k < |ns[o.parent].children| && ns[o.parent].children[k] == o.node && o.node < |ns| && ns[o.node].children == []
    ensures var o := Resolved(ns, root, path); var ns' := Detached(ns, o.parent, k);
      && o.node != root && Tree(ns', root, depth) && PoolOk(ns', used) && TakenOut(ns, ns', o.node)
      && Resolved(ns', root, path) == Missing(o.parent, o.leaf)
  {
    hide Components, Walk, Resolved, Child, Tree, PoolOk, TakenOut, Detached;
    var o := Resolved(ns, root, path);
    var p, n := o.parent, o.node;
    Lists(ns, root, depth, path);
    Placed(ns, root, depth, path);
    assert n in ns[p].children;
    ChildDepth(ns, root, depth, p, o.leaf);
    CanTake(ns, root, depth, p, k);
    DetachKeeps(ns, root, depth, p, k);
    DetachedRest(ns, root, depth, used, p, k);
    DetachedAbove(ns, root, depth, p, k);
    ResolveAgain(ns, Detached(ns, p, k), root, depth, path);
    GoneChild(ns, root, depth, p, k, o.leaf);
  }

  lemma CanTake(ns: seq<Node>, root: nat, depth: seq<nat>, p: nat, k: nat)
    requires Tree(ns, root, depth) && p < |ns| && ns[p].used && k < |ns[p].children| && ns[p].children[k] < |ns| && ns[ns[p].children[k]].children == []
    ensures CanDetach(ns, root, depth, p, k)
  {
    hide Tree, NodeOk;
  }

  lemma DetachedAbove(ns: seq<Node>, root: nat, depth: seq<nat>, p: nat, k: nat)
    requires CanDetach(ns, root, depth, p, k)
    ensures AgreeAbove(ns, Detached(ns, p, k), depth, p)
  {
    assert NodeOk(ns, root, depth, p) && ChildOk(ns, root, p, ns[p].children[k]) && NodeOk(ns, root, depth, ns[p].children[k]);
  }

  lemma DetachedRest(ns: seq<Node>, root: nat, depth: seq<nat>, used: nat, p: nat, k: nat)
    requires CanDetach(ns, root, depth, p, k) && PoolOk(ns, used)
    ensures PoolOk(Detached(ns, p, k), used) && TakenOut(ns, Detached(ns, p, k), ns[p].children[k])
  {
    hide TakenOut, PoolOk, Detached;
    assert NodeOk(ns, root, depth, p);
    assert Distinct(ns[p].children);
    forall m: nat | m < |ns| && ns[m].used && m != p
      ensures ns[p].children[k] !in ns[m].children
    {
      NotListed(ns, root, depth, p, k, m);
    }
    hide Tree, NodeOk;
    DetachedPool(ns, used, p, k);
    DetachedNodes(ns, p, k);
  }

  lemma DetachedPool(ns: seq<Node>, used: nat, p: nat, k: nat)
    requires PoolOk(ns, used) && p < |ns| && k < |ns[p].children| && ns[p].children[k] < |ns|
    ensures PoolOk(Detached(ns, p, k), used)
  {
    var ns' := Detached(ns, p, k);
    forall m | 0 <= m < |ns'| && ns'[m].used
      ensures RangeOk(ns'[m], used)
    {
      assert RangeOk(ns[m], used);
    }
    forall i, m | 0 <= i < m < |ns'| && ns'[i].used && ns'[m].used
      ensures Apart(ns'[i], ns'[m])
    {
      assert Apart(ns[i], ns[m]);
    }
  }

  lemma DetachedNodes(ns: seq<Node>, p: nat, k: nat)
    requires p < |ns| && ns[p].used && k < |ns[p].children| && ns[p].children[k] < |ns| && ns[p].children[k] != p && Distinct(ns[p].children)
    requires forall m: nat :: m < |ns| && ns[m].used && m != p ==> ns[p].children[k] !in ns[m].children
    ensures TakenOut(ns, Detached(ns, p, k), ns[p].children[k])
  {
    var cs := ns[p].children;
    assert forall c :: c in cs[..k] + cs[k + 1..] <==> c in cs && c != cs[k] by {
      assert cs == cs[..k] + [cs[k]] + cs[k + 1..];
    }
  }

  lemma NotListed(ns: seq<Node>, root: nat, depth: seq<nat>, p: nat, k: nat, m: nat)
    requires CanDetach(ns, root, depth, p, k) && m < |ns| && ns[m].used && m != p
    ensures ns[p].children[k] !in ns[m].children
  {
    assert NodeOk(ns, root, depth, p) && NodeOk(ns, root, depth, m);
    assert ChildOk(ns, root, p, ns[p].children[k]);
    forall i | 0 <= i < |ns[m].children|
      ensures ns[m].children[i] != ns[p].children[k]
    {
      assert ChildOk(ns, root, m, ns[m].children[i]);
    }
  }

  /** No sibling of the detached node has its name. */
  lemma GoneChild(ns: seq<Node>, root: nat, depth: seq<nat>, p: nat, k: nat, name: string)
    requires CanDetach(ns, root, depth, p, k) && ns[ns[p].children[k]].name == name
    ensures Child(Detached(ns, p, k), p, name) == -1
  {
    var ns', cs := Detached(ns, p, k), ns[p].children;
    assert NodeOk(ns, root, depth, p);
    hide Tree, NodeOk;
    var left := ns'[p].children;
    forall j | 0 <= j < |left|
      ensures left[j] < |ns'| && ns'[left[j]].name != name
    {
      var i := if j < k then j else j + 1;
      assert cs[i] == left[j] && ChildOk(ns, root, p, cs[i]) && ChildOk(ns, root, p, cs[k]);
    }
  }

  lemma Renames(ns: seq<Node>, root: nat, depth: seq<nat>, used: nat, oldPath: string, newPath: string)
    requires Tree(ns, root, depth) && PoolOk(ns, used) && Resolved(ns, root, oldPath).Found? && Resolved(ns, root, newPath).Missing?
    requires Resolved(ns, root, oldPath).parent == Resolved(ns, root, newPath).parent
    ensures var n, b := Resolved(ns, root, oldPath).node, Resolved(ns, root, newPath);
      && n < |ns| && Tree(ns[n := ns[n].(name := b.leaf)], root, depth) && PoolOk(ns[n := ns[n].(name := b.leaf)], used)
      && (n != root ==> Resolved(ns[n := ns[n].(name := b.leaf)], root, newPath) == Found(n, b.parent, b.leaf))
  {
    hide Components, Walk, Resolved, Child, GoodName, AgreeAbove, PoolOk, Tree, SameFiles, NamesDiffer, AtParent;
    Placed(ns, root, depth, oldPath);
    Used(ns, root, depth, oldPath);
    MissingLeaf(ns, root, newPath);
    var n, p, leaf := Resolved(ns, root, oldPath).node, Resolved(ns, root, newPath).parent, Resolved(ns, root, newPath).leaf;
    var ns' := ns[n := ns[n].(name := leaf)];
    RootIs(ns, root, depth);
    NoChildNamed(ns, root, depth, p, leaf);
    ReplaceKeeps(ns, root, depth, n, ns'[n]);
    RenamedFiles(ns, n, leaf);
    SamePool(ns, ns', used);
    if n != root {
      ChildDepth(ns, root, depth, p, Resolved(ns, root, oldPath).leaf);
      RenamedAbove(ns, depth, p, n, leaf);
      ResolveAgain(ns, ns', root, depth, newPath);
      ChildFound(ns', root, depth, n);
      ParentFinds(ns', p, leaf, n);
    }
  }

  lemma ParentFinds(ns: seq<Node>, p: nat, leaf: string, n: nat)
    requires Child(ns, p, leaf) == n
    ensures AtParent(ns, p, leaf) == Found(n, p, leaf)
  {
  }

  lemma RenamedAbove(ns: seq<Node>, depth: seq<nat>, p: nat, n: nat, name: string)
    requires p < |ns| == |depth| && n < |ns| && n != p && depth[n] > depth[p]
    ensures AgreeAbove(ns, ns[n := ns[n].(name := name)], depth, p)
  {
  }

  /** Names, parents and children do not matter to the pool. */
  lemma SamePool(ns: seq<Node>, ns': seq<Node>, used: nat)
    requires PoolOk(ns, used) && |ns'| == |ns|
    requires SameFiles(ns, ns')
    ensures PoolOk(ns', used)
  {
    forall m | 0 <= m < |ns'| && ns'[m].used
      ensures RangeOk(ns'[m], used)
    {
      assert RangeOk(ns[m], used);
    }
    forall k, m | 0 <= k < m < |ns'| && ns'[k].used && ns'[m].used
      ensures Apart(ns'[k], ns'[m])
    {
      assert Apart(ns[k], ns[m]);
    }
  }

  predicate SameFile(a: Node, b: Node) {
    a.used == b.used && a.dir == b.dir && a.data == b.data && a.size == b.size && a.capacity == b.capacity
  }

  /** The nodes in use and the pool ranges of their data are the same. */
  ghost predicate SameFiles(ns: seq<Node>, ns': seq<Node>) {
    |ns'| == |ns| && forall m :: 0 <= m < |ns| ==> SameFile(ns[m], ns'[m])
  }

  lemma FilesStay(ns: seq<Node>)
    ensures SameFiles(ns, ns)
  {
  }

  lemma RenamedFiles(ns: seq<Node>, n: nat, name: string)
    requires n < |ns|
    ensures SameFiles(ns, ns[n := ns[n].(name := name)])
  {
  }

  // ----- Moving to another directory

  /** There is room in directory `q`, and it does not lie in the subtree of `n`. */
  ghost predicate Moveable(ns: seq<Node>, root: nat, depth: seq<nat>, n: nat, q: nat) {
    && Tree(ns, root, depth) && n < |ns| && q < |ns| && ns[q].used
    && |ns[q].children| < MAX_CHILDREN && !Under(ns, root, depth, q, n)
  }

  /** What a move leaves: every node under its old names, or for the moved subtree under the new
      ones; or a node that is lost. */
  ghost predicate MovedOver(ns: seq<Node>, ns': seq<Node>, root: nat, depth: seq<nat>, depth': seq<nat>,
                            oldPath: string, newPath: string, code: int) {
    var a, b := Resolved(ns, root, oldPath), Resolved(ns, root, newPath);
    && a.Found? && b.Missing? && Tree(ns, root, depth) && a.node < |ns| && b.parent < |ns| && ns[b.parent].used
    && if a.node == root then code == -1 && ns' == ns
       else
         && code == (if |ns[b.parent].children| < MAX_CHILDREN then 0 else -1)
         && if Moveable(ns, root, depth, a.node, b.parent) then
              && Carried(ns, ns', root, depth, depth', a.node, b.parent, b.leaf)
              && Resolved(ns', root, newPath) == Found(a.node, b.parent, b.leaf)
              && Resolved(ns', root, oldPath) == Missing(a.parent, a.leaf)
            else Lost(ns', root, a.node)
  }

  /** A new file system, a directory made in it and then moved below itself: the call succeeds, and
      no path leads to the directory any more. */
  method MoveBelowItself(fs: RamFs) returns (code: int, ghost n: nat)
    requires fs.Valid() && OnlyRootUsed(fs.nodes[..], fs.root)
    modifies fs, fs.nodes, fs.pool
    ensures code == 0 && n < fs.nodes.Length && fs.nodes[n].used && Lost(fs.nodes[..], fs.root, n)
  {
    hide Tree, PoolOk, Lost, Resolved, Under, Carried, Along, Extends, Components, SameFiles, Blocked, OnlyRootUsed, NewAreDirs;
    ghost var ns0 := fs.nodes[..];
    code := fs.Mkdir("/a");
    ghost var ns, depth := fs.nodes[..], fs.depth;
    n := MadeOne(ns0, ns, fs.root, depth);
    BelowItself(ns0, ns, fs.root, depth, n);
    code := fs.Rename("/a", "/a/b");
    assert SameFile(ns[n], fs.nodes[..][n]) by { FileOf(ns, fs.nodes[..], n); }
  }

  ghost predicate OnlyRootUsed(ns: seq<Node>, root: nat) {
    forall m :: 0 <= m < |ns| && ns[m].used ==> m == root && ns[m].children == []
  }

  lemma FileOf(ns: seq<Node>, ns': seq<Node>, n: nat)
    requires SameFiles(ns, ns') && n < |ns|
    ensures SameFile(ns[n], ns'[n])
  {
  }

  lemma TwoPaths()
    ensures Components("/a") == ["a"] && Components("/a/b") == ["a", "b"]
  {
    ComponentsOfPath(["a"]);
    ComponentsOfPath(["a", "b"]);
    assert ["a"][1..] == [] && ["a", "b"][1..] == ["b"] && ["b"][1..] == [];
    assert PathFrom(["b"]) == "/b" && PathFrom(["a"]) == "/a" && PathFrom(["a", "b"]) == "/a/b";
  }

  /** All nodes but the root are children of the root without children. */
  lemma OneLevel(ns0: seq<Node>, ns: seq<Node>, root: nat, depth: seq<nat>, m: nat)
    requires OnlyRootUsed(ns0, root) && Along(ns0, ns, root, depth, ["a"]) && m < |ns| && ns[m].used && m != root
    ensures Tree(ns, root, depth) && ns[m].parent == root && ns[m].name == "a" && ns[m].children == []
  {
    hide Tree, NamesTo;
    RootIs(ns, root, depth);
    RootDepth(ns, root, depth);
    RootNames(ns, root, depth);
    NamesLength(ns, root, depth, m);
    NodeIs(ns, root, depth, m);
    NamesStep(ns, root, depth, m);
    if ns[m].children != [] {
      var c := ns[m].children[0];
      assert ChildOk(ns, root, m, c);
      NodeIs(ns, root, depth, c);
      NamesLength(ns, root, depth, c);
    }
  }

  lemma RoomForOne(ns0: seq<Node>, ns: seq<Node>, root: nat, depth: seq<nat>)
    requires OnlyRootUsed(ns0, root) && Along(ns0, ns, root, depth, ["a"]) && Child(ns, root, "a") < 0
    ensures !Blocked(ns, root, ["a"])
  {
    hide Tree, Along, OnlyRootUsed;
    AlongIsTree(ns0, ns, root, depth, ["a"]);
    RootIs(ns, root, depth);
    forall m | 0 <= m < |ns| && ns[m].used
      ensures m == root
    {
      if m != root {
        OneLevel(ns0, ns, root, depth, m);
        ChildFound(ns, root, depth, m);
      }
    }
    NodeIs(ns, root, depth, root);
    assert |ns[root].children| > 1 ==> ChildOk(ns, root, root, ns[root].children[0]);
    assert ["a"][..0] == [];
    assert !ns[if root == 0 then 1 else 0].used;
  }

  /** `/a` could be made. */
  lemma MadeOne(ns0: seq<Node>, ns: seq<Node>, root: nat, depth: seq<nat>) returns (n: nat)
    requires OnlyRootUsed(ns0, root) && Along(ns0, ns, root, depth, Components("/a"))
    requires Resolved(ns, root, "/a").Found? || Resolved(ns, root, "/a") in {NoPath, NotDir} || Blocked(ns, root, Components("/a"))
    ensures Resolved(ns, root, "/a") == Found(n, root, "a") && n < |ns| && ns[n].used && n != root
  {
    TwoPaths();
    hide Tree, Components, Along, OnlyRootUsed, Blocked;
    AlongIsTree(ns0, ns, root, depth, ["a"]);
    RootIs(ns, root, depth);
    var c := Child(ns, root, "a");
    if c < 0 { RoomForOne(ns0, ns, root, depth); }
    ChildDepth(ns, root, depth, root, "a");
    n := c;
  }

  lemma AlongIsTree(ns0: seq<Node>, ns: seq<Node>, root: nat, depth: seq<nat>, toks: seq<string>)
    requires Along(ns0, ns, root, depth, toks)
    ensures Tree(ns, root, depth)
  {
  }

  /** In such a table `/a/b` is a missing name in the directory `/a`, and the move there makes a loop. */
  lemma BelowItself(ns0: seq<Node>, ns: seq<Node>, root: nat, depth: seq<nat>, n: nat)
    requires OnlyRootUsed(ns0, root) && Along(ns0, ns, root, depth, Components("/a"))
    requires Resolved(ns, root, "/a") == Found(n, root, "a") && n < |ns| && ns[n].used && n != root && NewAreDirs(ns0, ns)
    ensures Resolved(ns, root, "/a/b") == Missing(n, "b")
    ensures Tree(ns, root, depth) && ns[n].children == [] && Under(ns, root, depth, n, n)
  {
    TwoPaths();
    OneLevel(ns0, ns, root, depth, n);
    RootIs(ns, root, depth);
    assert !ns0[n].used;
    hide Tree, Components, Along, OnlyRootUsed;
    assert ["a", "b"][1..] == ["b"];
  }

  lemma LostIsNoTree(ns: seq<Node>, root: nat, depth: seq<nat>, n: nat)
    requires Lost(ns, root, n)
    ensures !Tree(ns, root, depth)
  {
  }

  lemma Movable(ns: seq<Node>, root: nat, depth: seq<nat>, oldPath: string, newPath: string, k: nat)
    requires Tree(ns, root, depth) && Resolved(ns, root, oldPath).Found? && Resolved(ns, root, newPath).Missing?
    requires var a, b := Resolved(ns, root, oldPath), Resolved(ns, root, newPath);
      && a.parent != b.parent && a.parent < |ns| && k < |ns[a.parent].children| && ns[a.parent].children[k] == a.node
      && b.parent < |ns| && ns[b.parent].used && ns[b.parent].dir
    ensures var a, b := Resolved(ns, root, oldPath), Resolved(ns, root, newPath);
      CanMove(ns, root, depth, a.parent, k, b.parent, b.leaf)
    ensures Components(oldPath) != [] && Components(newPath) != [] && Resolved(ns, root, oldPath).node != root
  {
    Placed(ns, root, depth, oldPath);
    Lists(ns, root, depth, oldPath);
    MissingLeaf(ns, root, newPath);
    hide Tree, Components, Walk, Resolved;
    var b := Resolved(ns, root, newPath);
    NoChildNamed(ns, root, depth, b.parent, b.leaf);
  }

  lemma MovedFiles(ns: seq<Node>, p: nat, k: nat, q: nat, name: string, used: nat)
    requires p < |ns| && k < |ns[p].children| && ns[p].children[k] < |ns| && q < |ns| && PoolOk(ns, used)
    ensures SameFiles(ns, Moved(ns, p, k, q, name)) && PoolOk(Moved(ns, p, k, q, name), used)
  {
    SamePool(ns, Moved(ns, p, k, q, name), used);
  }

  /** The failing move: nothing happens to the root, any other node is lost. */
  lemma NoMove(ns: seq<Node>, ns': seq<Node>, root: nat, depth: seq<nat>, k: nat, oldPath: string, newPath: string)
    requires Tree(ns, root, depth) && Resolved(ns, root, oldPath).Found? && Resolved(ns, root, newPath).Missing?
    requires var a, b := Resolved(ns, root, oldPath), Resolved(ns, root, newPath);
      && a.parent != b.parent && a.parent < |ns| && a.node < |ns| && b.parent < |ns| && ns[b.parent].used && ns[b.parent].dir
      && if a.node in ns[a.parent].children then
           && k < |ns[a.parent].children| && ns[a.parent].children[k] == a.node && |ns[b.parent].children| >= MAX_CHILDREN
           && ns' == Unlinked(ns, a.parent, k)
         else ns' == ns
    ensures MovedOver(ns, ns', root, depth, depth, oldPath, newPath, -1) && SameFiles(ns, ns')
    ensures var a, b := Resolved(ns, root, oldPath), Resolved(ns, root, newPath);
      (a.node == root ==> ns' == ns) && (a.node != root ==> !Tree(ns', root, depth) && !Moveable(ns, root, depth, a.node, b.parent))
  {
    hide Tree, Resolved, Under, Lost, GoodName;
    var a, b := Resolved(ns, root, oldPath), Resolved(ns, root, newPath);
    Lists(ns, root, depth, oldPath);
    if a.node != root {
      Movable(ns, root, depth, oldPath, newPath, k);
      UnlinkedIsLost(ns, root, depth, a.parent, k, b.parent, b.leaf);
      LostIsNoTree(ns', root, depth, a.node);
    }
  }

  lemma MoveResult(ns: seq<Node>, root: nat, depth: seq<nat>, k: nat, oldPath: string, newPath: string)
    requires Tree(ns, root, depth) && Resolved(ns, root, oldPath).Found? && Resolved(ns, root, newPath).Missing?
    requires Components(oldPath) != [] && Components(newPath) != []
    requires var a, b := Resolved(ns, root, oldPath), Resolved(ns, root, newPath);
      && CanMove(ns, root, depth, a.parent, k, b.parent, b.leaf) && ns[a.parent].children[k] == a.node && a.node != root
      && |ns[b.parent].children| < MAX_CHILDREN
    ensures var a, b := Resolved(ns, root, oldPath), Resolved(ns, root, newPath);
      var ns' := Moved(ns, a.parent, k, b.parent, b.leaf);
      if Moveable(ns, root, depth, a.node, b.parent) then
        && MovedOver(ns, ns', root, depth, MovedDepth(ns, root, depth, a.node, b.parent), oldPath, newPath, 0)
        && Tree(ns', root, MovedDepth(ns, root, depth, a.node, b.parent))
      else MovedOver(ns, ns', root, depth, depth, oldPath, newPath, 0) && !Tree(ns', root, depth)
  {
    hide Tree, Resolved, Under, Moved, Lost, GoodName;
    var a, b := Resolved(ns, root, oldPath), Resolved(ns, root, newPath);
    var ns' := Moved(ns, a.parent, k, b.parent, b.leaf);
    if Moveable(ns, root, depth, a.node, b.parent) {
      MoveCarries(ns, root, depth, a.parent, k, b.parent, b.leaf);
      MovedPaths(ns, root, depth, k, oldPath, newPath);
    } else {
      LoopIsLost(ns, root, depth, a.parent, k, b.parent, b.leaf);
      LostIsNoTree(ns', root, depth, a.node);
    }
  }

  lemma MissingLeaf(ns: seq<Node>, root: nat, path: string)
    requires Resolved(ns, root, path).Missing?
    ensures var o := Resolved(ns, root, path);
      path != "" && path[0] == '/' && Components(path) != [] && GoodName(o.leaf) && Child(ns, o.parent, o.leaf) == -1
  {
    ComponentsGood(path);
  }

  // ----- What a creation adds

  lemma AlongStart(ns: seq<Node>, root: nat, depth: seq<nat>, toks: seq<string>)
    requires Tree(ns, root, depth)
    ensures Along(ns, ns, root, depth, toks) && NamesTo(ns, root, depth, root) == []
  {
    RootIs(ns, root, depth);
    RootDepth(ns, root, depth);
  }

  lemma IsBlocked(ns: seq<Node>, root: nat, toks: seq<string>, k: nat)
    requires k < |toks| && Reach(ns, root, toks[..k]) >= 0 && Child(ns, Reach(ns, root, toks[..k]), toks[k]) == -1 && NoRoom(ns, Reach(ns, root, toks[..k]))
    ensures Blocked(ns, root, toks)
  {
    assert BlockedAt(ns, root, toks, k);
  }

  lemma LastBlocked(ns: seq<Node>, root: nat, path: string)
    requires Resolved(ns, root, path).Missing? && NoRoom(ns, Resolved(ns, root, path).parent)
    ensures Blocked(ns, root, Components(path))
  {
    var toks := Components(path);
    WalkReaches(ns, root, toks);
    IsBlocked(ns, root, toks, |toks| - 1);
  }

  lemma ChildNames(ns: seq<Node>, root: nat, depth: seq<nat>, p: nat, x: string)
    requires Tree(ns, root, depth) && p < |ns| && ns[p].used && Child(ns, p, x) >= 0
    ensures NamesTo(ns, root, depth, Child(ns, p, x)) == NamesTo(ns, root, depth, p) + [x]
  {
    ChildDepth(ns, root, depth, p, x);
  }

  /** Everything used before still has the names it had. */
  lemma NamesStay(ns: seq<Node>, ns': seq<Node>, root: nat, depth: seq<nat>, depth': seq<nat>)
    requires Tree(ns, root, depth) && Tree(ns', root, depth')
    requires forall m :: 0 <= m < |ns| && ns[m].used ==> ns'[m].used && ns'[m].parent == ns[m].parent && ns'[m].name == ns[m].name
    ensures forall m :: 0 <= m < |ns| && ns[m].used ==> ns'[m].used && NamesTo(ns', root, depth', m) == NamesTo(ns, root, depth, m)
  {
    forall m | 0 <= m < |ns| && ns[m].used
      ensures ns'[m].used && NamesTo(ns', root, depth', m) == NamesTo(ns, root, depth, m)
    {
      PathsKept(ns, ns', root, depth, depth', |ns|, m);
    }
  }

  lemma AlongNext(ns0: seq<Node>, ns: seq<Node>, ns': seq<Node>, root: nat, depth: seq<nat>, depth': seq<nat>, p: nat, c: nat, toks: seq<string>, i: nat)
    requires Along(ns0, ns, root, depth, toks) && Tree(ns', root, depth') && p < |ns| && c < |ns| && ns[p].used && !ns[c].used && i < |toks|
    requires NamesTo(ns, root, depth, p) == toks[..i] && Child(ns', p, toks[i]) == c && ns'[c].used && (i < |toks| - 1 ==> ns'[c].dir)
    requires exists node :: ns' == Attached(ns, p, c, node)
    ensures Along(ns0, ns', root, depth', toks) && NamesTo(ns', root, depth', p) == toks[..i]
  {
    hide Tree, NamesTo, Child;
    NamesStay(ns, ns', root, depth, depth');
    ChildNames(ns', root, depth', p, toks[i]);
    SizesAre(ns, ns', root, depth, depth');
    RootIs(ns', root, depth');
    assert toks[..i] + [toks[i]] == toks[..i + 1];
    forall m | 0 <= m < |ns'| && ns'[m].used && !ns0[m].used
      ensures NamesTo(ns', root, depth', m) <= toks && (depth'[m] < |toks| ==> ns'[m].dir)
    {
      assert m == c || ns[m].used;
    }
  }

  lemma SizesAre(ns: seq<Node>, ns': seq<Node>, root: nat, depth: seq<nat>, depth': seq<nat>)
    requires Tree(ns, root, depth) && Tree(ns', root, depth')
    ensures forall m :: 0 <= m < |ns| && ns[m].used ==> |NamesTo(ns, root, depth, m)| == depth[m]
    ensures forall m :: 0 <= m < |ns'| && ns'[m].used ==> |NamesTo(ns', root, depth', m)| == depth'[m]
  {
  }

  lemma AlongKept(ns0: seq<Node>, ns: seq<Node>, ns': seq<Node>, root: nat, depth: seq<nat>, toks: seq<string>)
    requires Along(ns0, ns, root, depth, toks) && Tree(ns', root, depth)
    requires forall m :: 0 <= m < |ns| ==> ns'[m].used == ns[m].used && ns'[m].parent == ns[m].parent && ns'[m].name == ns[m].name && ns'[m].dir == ns[m].dir
    ensures Along(ns0, ns', root, depth, toks)
  {
    hide Tree, NamesTo;
    RootIs(ns, root, depth);
    RootIs(ns', root, depth);
    NamesStay(ns, ns', root, depth, depth);
  }

  /** A path keeps leading to its node while that node and those above it keep their names and
      parents: nothing that creates, writes or removes elsewhere changes what it means. */
  lemma {:induction false} PathsKept(ns: seq<Node>, ns': seq<Node>, root: nat, depth: seq<nat>, depth': seq<nat>, gone: nat, n: nat)
    requires Tree(ns, root, depth) && Tree(ns', root, depth') && n < |ns| && ns[n].used && n != gone
    requires forall m :: 0 <= m < |ns| && ns[m].used && m != gone ==> ns'[m].used && ns'[m].parent == ns[m].parent && ns'[m].name == ns[m].name
    requires gone < |ns| && ns[gone].used ==> gone != root && ns[gone].children == []
    ensures ns'[n].used && NamesTo(ns', root, depth', n) == NamesTo(ns, root, depth, n)
    ensures n != root ==> Resolved(ns', root, PathOf(NamesTo(ns, root, depth, n))) == Found(n, ns[n].parent, ns[n].name)
    decreases depth[n]
  {
    hide Resolved, PathOf, Components, Walk;
    assert NodeOk(ns, root, depth, n) && NodeOk(ns', root, depth', n);
    if n != root {
      PathsKept(ns, ns', root, depth, depth', gone, ns[n].parent);
      ResolvesToItself(ns', root, depth', n);
    }
  }
}
