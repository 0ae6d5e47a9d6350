/** Clusters as byte ranges: where the bytes of a file are on the disk. */
module FatData {
  import opened FatTable

  predicate InRange(g: Geometry, c: nat) {
    2 <= c <= g.clusterCount + 1
  }

  ghost predicate Distinct(cs: seq<nat>) {
    forall i, j :: 0 <= i < j < |cs| ==> cs[i] != cs[j]
  }

  ghost predicate AllInRange(g: Geometry, cs: seq<nat>) {
    forall i :: 0 <= i < |cs| ==> InRange(g, cs[i])
  }

  function ClusterBytes(g: Geometry): nat {
    g.sectorsPerCluster * SECTOR
  }

  lemma SomeBytes(g: Geometry)
    requires g.sectorsPerCluster > 0
    ensures ClusterBytes(g) > 0
  {
  }

  function Slice(buf: seq<Byte>, s: nat): (t: Sector)
    requires (s + 1) * SECTOR <= |buf|
  {
    buf[s * SECTOR..(s + 1) * SECTOR]
  }

  predicate InCluster(g: Geometry, c: nat, s: int) {
    g.ClusterSector(c) <= s < g.ClusterSector(c) + g.sectorsPerCluster
  }

  lemma ClusterOnDisk(g: Geometry, sectors: nat, c: nat)
    requires g.Valid(sectors) && InRange(g, c)
    ensures g.CopyBase(g.fatCount) <= g.firstDataSector <= g.ClusterSector(c)
    ensures g.ClusterSector(c) + g.sectorsPerCluster <= sectors
  {
    hide Geometry.EntryCount;
    MulMono(c - 1, g.clusterCount, g.sectorsPerCluster);
    MulMono(0, c - 2, g.sectorsPerCluster);
    assert (c - 2) * g.sectorsPerCluster + g.sectorsPerCluster == (c - 1) * g.sectorsPerCluster;
  }

  lemma MulMono(a: nat, b: nat, n: nat)
    ensures a <= b ==> a * n <= b * n
  {
  }

  lemma ClustersDisjoint(g: Geometry, c: nat, e: nat, s: int)
    requires c != e && InCluster(g, c, s)
    ensures !InCluster(g, e, s)
  {
    if c < e {
      assert (c - 2) * g.sectorsPerCluster + g.sectorsPerCluster == (c - 1) * g.sectorsPerCluster <= (e - 2) * g.sectorsPerCluster;
    } else {
      assert (e - 2) * g.sectorsPerCluster + g.sectorsPerCluster == (e - 1) * g.sectorsPerCluster <= (c - 2) * g.sectorsPerCluster;
    }
  }

  // ----- Bytes of a file

  lemma SlicesAreBytes(d: Disk, g: Geometry, c: nat, buf: seq<Byte>)
    requires |buf| == ClusterBytes(g) && 0 <= g.ClusterSector(c) && g.ClusterSector(c) + g.sectorsPerCluster <= |d|
    requires forall s: nat :: s < g.sectorsPerCluster ==> d[g.ClusterSector(c) + s] == Slice(buf, s)
    ensures forall k: nat :: k < |buf| ==> ByteOf(d, g, c, k) == buf[k]
  {
    forall k: nat | k < |buf|
      ensures ByteOf(d, g, c, k) == buf[k]
    {
      assert k / SECTOR < g.sectorsPerCluster;
      assert d[g.ClusterSector(c) + k / SECTOR] == Slice(buf, k / SECTOR);
    }
  }

  /** Byte `k` of a cluster. */
  ghost function ByteOf(d: Disk, g: Geometry, c: nat, k: nat): Byte {
    var s := g.ClusterSector(c) + k / SECTOR;
    if 0 <= s < |d| then d[s][k % SECTOR] else 0
  }

  /** Byte `x` of the file whose clusters are `cs`. */
  ghost function FileByte(d: Disk, g: Geometry, cs: seq<nat>, x: nat): Byte {
    var bytes := ClusterBytes(g);
    if bytes > 0 && x / bytes < |cs| then ByteOf(d, g, cs[x / bytes], x % bytes) else 0
  }

  /** Bytes `from` to `to` of that file. */
  ghost function Range(d: Disk, g: Geometry, cs: seq<nat>, from: nat, to: nat): (bs: seq<Byte>)
    requires from <= to
    ensures |bs| == to - from
    ensures forall k :: 0 <= k < |bs| ==> bs[k] == FileByte(d, g, cs, from + k)
  {
    if from == to then [] else Range(d, g, cs, from, to - 1) + [FileByte(d, g, cs, to - 1)]
  }

  ghost function Content(d: Disk, g: Geometry, cs: seq<nat>, n: nat): (bs: seq<Byte>)
    ensures |bs| == n
    ensures forall x :: 0 <= x < n ==> bs[x] == FileByte(d, g, cs, x)
  {
    Range(d, g, cs, 0, n)
  }

  lemma DivMod(i: nat, k: nat, bytes: nat)
    requires k < bytes
    ensures (i * bytes + k) / bytes == i && (i * bytes + k) % bytes == k
  {
    var x := i * bytes + k;
    var q, r := x / bytes, x % bytes;
    assert q * bytes + r == x;
    MulMono(q + 1, i, bytes);
    MulMono(i + 1, q, bytes);
  }

  lemma FileByteAt(d: Disk, g: Geometry, cs: seq<nat>, i: nat, k: nat)
    requires i < |cs| && k < ClusterBytes(g)
    ensures FileByte(d, g, cs, i * ClusterBytes(g) + k) == ByteOf(d, g, cs[i], k)
  {
    DivMod(i, k, ClusterBytes(g));
  }

  lemma Position(x: nat, n: nat, bytes: nat)
    requires bytes > 0 && x < n * bytes
    ensures x / bytes < n && x % bytes < bytes && x == x / bytes * bytes + x % bytes
  {
    assert x == x / bytes * bytes + x % bytes;
    MulMono(n, x / bytes, bytes);
  }

  lemma PrefixByte(d: Disk, g: Geometry, cs: seq<nat>, es: seq<nat>, x: nat)
    requires cs <= es && x < |cs| * ClusterBytes(g)
    ensures FileByte(d, g, es, x) == FileByte(d, g, cs, x)
  {
    hide ByteOf, ClusterBytes;
    Position(x, |cs|, ClusterBytes(g));
  }

  /** Bytes of a file up to the end of a cluster do not depend on the clusters that follow. */
  lemma PrefixRange(d: Disk, g: Geometry, cs: seq<nat>, es: seq<nat>, from: nat, to: nat)
    requires cs <= es && from <= to && (from < to ==> to <= |cs| * ClusterBytes(g))
    ensures Range(d, g, es, from, to) == Range(d, g, cs, from, to)
  {
    hide ByteOf, FileByte, ClusterBytes, Range;
    forall x: nat | from <= x < to
      ensures FileByte(d, g, es, x) == FileByte(d, g, cs, x)
    {
      PrefixByte(d, g, cs, es, x);
    }
  }

  lemma PrefixContent(d: Disk, g: Geometry, cs: seq<nat>, es: seq<nat>, n: nat)
    requires cs <= es && n <= |cs| * ClusterBytes(g)
    ensures Content(d, g, es, n) == Content(d, g, cs, n)
  {
    hide ByteOf, FileByte, ClusterBytes, Range;
    PrefixRange(d, g, cs, es, 0, n);
  }

  /** The bytes behind the end of a list of clusters seen from its `j`-th cluster. */
  lemma SuffixRange(d: Disk, g: Geometry, cs: seq<nat>, j: nat, from: nat, to: nat)
    requires j <= |cs| && from <= to <= (|cs| - j) * ClusterBytes(g)
    ensures 0 <= j * ClusterBytes(g)
    ensures Range(d, g, cs[j..], from, to) == Range(d, g, cs, j * ClusterBytes(g) + from, j * ClusterBytes(g) + to)
  {
    hide ByteOf, FileByte, ClusterBytes, Range;
    forall x: nat | from <= x < to
      ensures FileByte(d, g, cs[j..], x) == FileByte(d, g, cs, j * ClusterBytes(g) + x)
    {
      SuffixByte(d, g, cs, j, x);
    }
    RangesEqual(Range(d, g, cs[j..], from, to), Range(d, g, cs, j * ClusterBytes(g) + from, j * ClusterBytes(g) + to));
  }

  lemma RangesEqual(a: seq<Byte>, b: seq<Byte>)
    requires |a| == |b| && forall k :: 0 <= k < |a| ==> a[k] == b[k]
    ensures a == b
  {
  }

  lemma SuffixByte(d: Disk, g: Geometry, cs: seq<nat>, j: nat, x: nat)
    requires j <= |cs| && x < (|cs| - j) * ClusterBytes(g)
    ensures FileByte(d, g, cs[j..], x) == FileByte(d, g, cs, j * ClusterBytes(g) + x)
  {
    hide ByteOf, ClusterBytes, FileByte;
    var bytes := ClusterBytes(g);
    Position(x, |cs| - j, bytes);
    var i, k := x / bytes, x % bytes;
    MulSum(j, i, bytes);
    FileByteAt(d, g, cs[j..], i, k);
    FileByteAt(d, g, cs, j + i, k);
  }

  lemma MulSum(a: nat, b: nat, n: nat)
    ensures (a + b) * n == a * n + b * n
  {
  }

  /** One more piece of cluster `i` extends the bytes already read up to it. */
  lemma RangeExtends(d: Disk, g: Geometry, cs: seq<nat>, from: nat, done: seq<Byte>, i: nat, skip: nat, piece: seq<Byte>)
    requires i < |cs| && skip + |piece| <= ClusterBytes(g) && from + |done| == i * ClusterBytes(g) + skip
    requires done == Range(d, g, cs, from, from + |done|)
    requires forall k: nat :: k < |piece| ==> piece[k] == ByteOf(d, g, cs[i], skip + k)
    ensures done + piece == Range(d, g, cs, from, from + |done| + |piece|)
  {
    hide ByteOf, FileByte, ClusterBytes, Range;
    forall k: nat | k < |piece|
      ensures piece[k] == FileByte(d, g, cs, from + |done| + k)
    {
      FileByteAt(d, g, cs, i, skip + k);
    }
    var whole := Range(d, g, cs, from, from + |done| + |piece|);
    forall k | 0 <= k < |whole|
      ensures (done + piece)[k] == whole[k]
    {
      if k >= |done| { assert (done + piece)[k] == piece[k - |done|]; }
    }
  }

  // ----- Writing

  predicate NotIn(g: Geometry, cs: seq<nat>, s: nat) {
    forall i :: 0 <= i < |cs| ==> !InCluster(g, cs[i], s)
  }

  /** Sectors outside the clusters of `cs` are the same. */
  ghost predicate OnlyClusters(d: Disk, d': Disk, g: Geometry, cs: seq<nat>) {
    && |d'| == |d|
    && forall s: nat :: s < |d| && NotIn(g, cs, s) ==> d'[s] == d[s]
  }

  lemma OnlyNothing(d: Disk, g: Geometry, cs: seq<nat>)
    ensures OnlyClusters(d, d, g, cs)
  {
  }

  lemma NothingWritten(d: Disk, g: Geometry, cs: seq<nat>, data: seq<Byte>)
    ensures Written(d, g, cs, data, 0)
  {
  }

  /** Byte `x` of the file as it should be on disk: the data, then zeros. */
  function Padded(data: seq<Byte>, x: nat): Byte {
    if x < |data| then data[x] else 0
  }

  /** The first `n` clusters of `cs` hold the first bytes of the padded data. */
  ghost predicate Written(d: Disk, g: Geometry, cs: seq<nat>, data: seq<Byte>, n: nat) {
    forall i: nat, k: nat :: i < n <= |cs| && k < ClusterBytes(g) ==>
      ByteOf(d, g, cs[i], k) == Padded(data, i * ClusterBytes(g) + k)
  }

  lemma ContentWritten(d: Disk, g: Geometry, cs: seq<nat>, data: seq<Byte>)
    requires Written(d, g, cs, data, |cs|) && |data| <= |cs| * ClusterBytes(g) && g.sectorsPerCluster > 0
    ensures Content(d, g, cs, |data|) == data
  {
    hide ByteOf, ClusterBytes, Range;
    SomeBytes(g);
    forall x: nat | x < |data|
      ensures FileByte(d, g, cs, x) == data[x]
    {
      Position(x, |cs|, ClusterBytes(g));
    }
  }

  /** One cluster is overwritten with `buf`. */
  ghost predicate ClusterWritten(d: Disk, d': Disk, g: Geometry, c: nat, buf: seq<Byte>) {
    && |d'| == |d|
    && (forall s: nat :: s < |d| && !InCluster(g, c, s) ==> d'[s] == d[s])
    && (forall k: nat :: k < |buf| ==> ByteOf(d', g, c, k) == buf[k])
  }

  lemma ByteOutside(d: Disk, d': Disk, g: Geometry, c: nat, e: nat, k: nat)
    requires |d'| == |d| && c != e && k < ClusterBytes(g)
    requires forall s: nat :: s < |d| && !InCluster(g, c, s) ==> d'[s] == d[s]
    ensures ByteOf(d', g, e, k) == ByteOf(d, g, e, k)
  {
    var s := g.ClusterSector(e) + k / SECTOR;
    assert InCluster(g, e, s);
    ClustersDisjoint(g, e, c, s);
  }

  lemma WrittenNext(d: Disk, d1: Disk, d2: Disk, g: Geometry, cs: seq<nat>, data: seq<Byte>, i: nat, buf: seq<Byte>)
    requires i < |cs| && Distinct(cs) && |buf| == ClusterBytes(g)
    requires Written(d1, g, cs, data, i) && OnlyClusters(d, d1, g, cs[..i]) && ClusterWritten(d1, d2, g, cs[i], buf)
    requires forall k: nat :: k < |buf| ==> buf[k] == Padded(data, i * ClusterBytes(g) + k)
    ensures Written(d2, g, cs, data, i + 1) && OnlyClusters(d, d2, g, cs[..i + 1])
  {
    hide ByteOf, Padded;
    forall j: nat, k: nat | j < i && k < ClusterBytes(g)
      ensures ByteOf(d2, g, cs[j], k) == ByteOf(d1, g, cs[j], k)
    {
      ByteOutside(d1, d2, g, cs[i], cs[j], k);
    }
    forall s: nat | s < |d| && NotIn(g, cs[..i + 1], s)
      ensures d2[s] == d[s]
    {
      assert !InCluster(g, cs[..i + 1][i], s);
      forall j | 0 <= j < |cs[..i]|
        ensures !InCluster(g, cs[..i][j], s)
      {
        assert cs[..i][j] == cs[..i + 1][j];
      }
    }
  }

  lemma MulNext(i: nat, n: nat)
    ensures (i + 1) * n == i * n + n
  {
  }

  lemma PieceOf(data: seq<Byte>, at: nat, n: nat, buf: seq<Byte>)
    requires at <= |data|
    requires buf == if |data| - at >= n then data[at..][..n] else data[at..] + seq(n - (|data| - at), _ => 0)
    ensures |buf| == n
    ensures forall k: nat :: k < |buf| ==> buf[k] == Padded(data, at + k)
  {
  }

  lemma EnoughLeft(len: nat, n: nat, i: nat, bytes: nat)
    requires i < n && (n - 1) * bytes < len <= n * bytes
    ensures i * bytes <= len
    ensures len - i * bytes < bytes ==> i == n - 1
  {
    assert i * bytes <= (n - 1) * bytes;
    if i < n - 1 { assert (i + 1) * bytes <= (n - 1) * bytes; }
  }
}
