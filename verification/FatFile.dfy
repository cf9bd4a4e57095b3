/** Invariants of a file being written through a handle: what the flushed clusters, the cached
    cluster buffer and the grown chain hold after each byte. */
module FatFile {
  import opened FatLayout
  import opened FatVolume
  import opened FatTree

  /** `data` laid over `was` from offset `off` on. */
  function Overlay(was: seq<char>, off: nat, data: seq<char>): (r: seq<char>)
    requires off <= |was|
    ensures |r| == if off + |data| > |was| then off + |data| else |was|
  {
    was[..off] + data + if off + |data| < |was| then was[off + |data|..] else []
  }

  /** Place by place: the data where it was laid, what was there everywhere else. */
  lemma OverlayAt(was: seq<char>, off: nat, data: seq<char>, x: nat)
    requires off <= |was| && (x < |was| || x < off + |data|)
    ensures |Overlay(was, off, data)| == if off + |data| > |was| then off + |data| else |was|
    ensures Overlay(was, off, data)[x] == if off <= x < off + |data| then data[x - off] else was[x]
  {
  }

  /** Writing two chunks one after the other is writing their concatenation. */
  lemma OverlayTwice(was: seq<char>, off: nat, a: seq<char>, b: seq<char>)
    requires off <= |was|
    ensures Overlay(Overlay(was, off, a), off + |a|, b) == Overlay(was, off, a + b)
  {
  }

  function Max(a: nat, b: nat): nat { if a > b then a else b }

  function FreeSet(fat: FatMap): set<nat> {
    set c | 0 <= c < CLUSTER_MAP_SIZE && fat[c] == FAT32_FAT_EMPTY_ENTRY
  }

  /** Number of clusters needed for `n` bytes. */
  function Clusters(n: nat): nat { (n + CLUSTER_SIZE - 1) / CLUSTER_SIZE }

  lemma ClustersStep(p: nat, n: nat)
    ensures Clusters(p + 1) == if p % CLUSTER_SIZE == 0 then p / CLUSTER_SIZE + 1 else Clusters(p)
    ensures Max(Max(n, Clusters(p)), Clusters(p + 1)) == Max(n, Clusters(p + 1))
  {
  }

  lemma ClustersFit(p: nat, n: nat)
    ensures Clusters(p) <= n <==> p <= n * CLUSTER_SIZE
    ensures p <= n * CLUSTER_SIZE ==> Max(n, Clusters(p)) == n
  {
  }

  lemma FullClusters(p: nat, q: nat, n: nat)
    requires p == n * CLUSTER_SIZE < q
    ensures Clusters(q) > n
  {
  }

  /** The free clusters `fs` are linked, one after the other, behind the chain of `s`. */
  ghost predicate Lengthening(fat: FatMap, m: Meta, s: Slot, fs: seq<nat>, fat': FatMap, m': Meta)
    decreases |fs|
  {
    if fs == [] then fat' == fat && m' == m
    else
      && s in m.chains && m.chains[s] != [] && m.chains[s][|m.chains[s]| - 1] < CLUSTER_MAP_SIZE
      && 3 <= fs[0] < CLUSTER_MAP_SIZE && fat[fs[0]] == FAT32_FAT_EMPTY_ENTRY
      && Lengthening(LinkCells(fat, m.chains[s][|m.chains[s]| - 1], fs[0]), Extended(m, s, fs[0]), s, fs[1..], fat', m')
  }

  /** The chain of `s` has grown, and nothing else in the table. */
  ghost predicate Lengthened(v0: Volume, m0: Meta, v: Volume, m: Meta, s: Slot) {
    exists fs: seq<nat> :: Lengthening(v0.fat, m0, s, fs, v.fat, m)
  }

  /** The signature block is as before, and cluster 1 holds the table. */
  ghost predicate Mirrored(v0: Volume, v: Volume) {
    |v.disk| == |v0.disk| && v.disk[0] == v0.disk[0] && v.disk[FAT_CLUSTER_NUMBER] == EncodeFat(v.fat)
  }

  lemma {:induction false} LengtheningSnoc(fat: FatMap, m: Meta, s: Slot, fs: seq<nat>, fat': FatMap, m': Meta, f: nat)
    requires Lengthening(fat, m, s, fs, fat', m') && s in m'.chains && m'.chains[s] != []
    requires m'.chains[s][|m'.chains[s]| - 1] < CLUSTER_MAP_SIZE
    requires 3 <= f < CLUSTER_MAP_SIZE && fat'[f] == FAT32_FAT_EMPTY_ENTRY
    ensures Lengthening(fat, m, s, fs + [f], LinkCells(fat', m'.chains[s][|m'.chains[s]| - 1], f), Extended(m', s, f))
    decreases |fs|
  {
    hide LinkCells, Extended;
    if fs == [] {
      assert (fs + [f])[1..] == [];
    } else {
      assert (fs + [f])[0] == fs[0] && (fs + [f])[1..] == fs[1..] + [f];
      LengtheningSnoc(LinkCells(fat, m.chains[s][|m.chains[s]| - 1], fs[0]), Extended(m, s, fs[0]), s, fs[1..],
        fat', m', f);
    }
  }

  /** Lengthening keeps every allocated cluster in one chain, and the reserved cells. */
  lemma {:induction false} LengtheningKeeps(fat: FatMap, m: Meta, s: Slot, fs: seq<nat>, fat': FatMap, m': Meta)
    requires Lengthening(fat, m, s, fs, fat', m') && Partitioned(fat, m) && s in m.chains
    ensures Partitioned(fat', m') && fat'[..3] == fat[..3]
    ensures s in m'.chains && m.chains[s] <= m'.chains[s] && m'.depth == m.depth && m'.chains.Keys == m.chains.Keys
    ensures forall c | c in m.home :: c in m'.home && m'.home[c] == m.home[c]
    decreases |fs|
  {
    hide Partitioned, LinkCells;
    if fs != [] {
      var last := m.chains[s][|m.chains[s]| - 1];
      ExtendPartition(fat, m, s, fs[0]);
      LastBound(fat, m, s);
      LinkReserved(fat, last, fs[0]);
      FreeUnowned(fat, m, fs[0]);
      LengtheningKeeps(LinkCells(fat, last, fs[0]), Extended(m, s, fs[0]), s, fs[1..], fat', m');
    }
  }

  lemma LastBound(fat: FatMap, m: Meta, s: Slot)
    requires Partitioned(fat, m) && s in m.chains
    ensures m.chains[s] != [] && 3 <= m.chains[s][|m.chains[s]| - 1] < CLUSTER_MAP_SIZE
  {
    assert IsChain(fat, m.chains[s]);
  }

  lemma FreeUnowned(fat: FatMap, m: Meta, f: nat)
    requires Partitioned(fat, m) && f < CLUSTER_MAP_SIZE && fat[f] == FAT32_FAT_EMPTY_ENTRY
    ensures f !in m.home
  {
  }

  lemma LinkReserved(fat: FatMap, last: nat, f: nat)
    requires 3 <= last < CLUSTER_MAP_SIZE && 3 <= f < CLUSTER_MAP_SIZE
    ensures LinkCells(fat, last, f)[..3] == fat[..3]
  {
  }

  /** `(v, m)` differs from `(v0, m0)` only in the data and the length of the chain of `s`. */
  ghost predicate Grown(v0: Volume, m0: Meta, v: Volume, m: Meta, s: Slot) {
    && s in m0.chains && m.chains.Keys == m0.chains.Keys && m.depth == m0.depth
    && m0.chains[s] <= m.chains[s]
    && (forall t {:trigger m.chains[t]} | t in m.chains && t != s :: m.chains[t] == m0.chains[t])
    && (forall c | c in m0.home :: c in m.home && m.home[c] == m0.home[c])
    && (forall t: Slot {:trigger EntryAt(v, t)} :: t.dir in m.depth ==> EntryAt(v, t) == EntryAt(v0, t))
    && |v.disk| == |v0.disk|
    && (forall c {:trigger v.disk[c]} | 0 <= c < |v.disk| && c != FAT_CLUSTER_NUMBER && c !in m.chains[s] ::
          v.disk[c] == v0.disk[c])
    && |FreeSet(v.fat)| + |m.chains[s]| == |FreeSet(v0.fat)| + |m0.chains[s]|
    && Lengthened(v0, m0, v, m, s)
  }

  /** Byte `x` of the file after the first `p - p0` bytes of `data` were written at `p0`. */
  ghost predicate ByteOk(v0: Volume, m0: Meta, s: Slot, p0: nat, p: nat, data: seq<char>, disk: seq<Cluster>,
                         ch: seq<nat>, x: nat)
    requires s in m0.chains && p <= p0 + |data|
  {
    if p0 <= x < p then ByteAt(disk, ch, x) == data[x - p0]
    else x < |m0.chains[s]| * CLUSTER_SIZE ==> ByteAt(disk, ch, x) == ByteAt(v0.disk, m0.chains[s], x)
  }

  /** The disk with one cluster replaced. */
  function DiskWith(v: Volume, c: nat, b: Cluster): seq<Cluster> {
    if c < |v.disk| then v.disk[c := b] else v.disk
  }

  function PutByte(b: Cluster, i: nat, c: char): Cluster {
    if i < CLUSTER_SIZE then b[i := c] else b
  }

  /** The state between two bytes. `disk` is the disk as it will be once the buffer is flushed. */
  ghost predicate Writing(v0: Volume, m0: Meta, v: Volume, m: Meta, s: Slot, p0: nat, p: nat, data: seq<char>,
                          disk: seq<Cluster>) {
    && WF(v, m) && Grown(v0, m0, v, m, s) && !IsDir(EntryAt(v, s))
    && p0 <= p <= p0 + |data| && p <= |m.chains[s]| * CLUSTER_SIZE
    && forall x: nat ::
         x < |m.chains[s]| * CLUSTER_SIZE ==> ByteOk(v0, m0, s, p0, p, data, disk, m.chains[s], x)
  }

  lemma NoneFree(fat: FatMap)
    requires forall c :: 0 <= c < CLUSTER_MAP_SIZE ==> fat[c] != FAT32_FAT_EMPTY_ENTRY
    ensures FreeSet(fat) == {}
  {
  }

  lemma WritingFacts(v0: Volume, m0: Meta, v: Volume, m: Meta, s: Slot, p0: nat, p: nat, data: seq<char>,
                     disk: seq<Cluster>)
    requires Writing(v0, m0, v, m, s, p0, p, data, disk)
    ensures WF(v, m) && s in m0.chains && s in m.chains && !IsDir(EntryAt(v, s)) && m0.chains[s] <= m.chains[s]
    ensures p0 <= p <= p0 + |data| && p <= |m.chains[s]| * CLUSTER_SIZE && |v.disk| == |v0.disk|
    ensures |FreeSet(v.fat)| + |m.chains[s]| == |FreeSet(v0.fat)| + |m0.chains[s]|
    ensures s.dir in m.depth ==> EntryAt(v, s) == EntryAt(v0, s)
  {
  }

  lemma StartWriting(v: Volume, m: Meta, s: Slot, p: nat, data: seq<char>)
    requires WF(v, m) && s in m.chains && !IsDir(EntryAt(v, s)) && p <= EntryAt(v, s).filesize
    ensures Writing(v, m, v, m, s, p, p, data, v.disk)
  {
    hide EntryAt, ByteAt, IsLink, Linked, Header, Partitioned;
    assert Housed(v, m, s);
    assert Lengthening(v.fat, m, s, [], v.fat, m);
  }

  /** Flushing the buffer into its cluster of the chain. */
  lemma Flush(v0: Volume, m0: Meta, v: Volume, m: Meta, s: Slot, p0: nat, p: nat, data: seq<char>, k: nat, b: Cluster)
    requires WF(v, m) && s in m.chains && k < |m.chains[s]| && m.chains[s][k] < |v.disk|
    requires Writing(v0, m0, v, m, s, p0, p, data, DiskWith(v, m.chains[s][k], b))
    ensures Writing(v0, m0, PutCluster(v, m.chains[s][k], b), m, s, p0, p, data, PutCluster(v, m.chains[s][k], b).disk)
  {
    hide EntryAt, ByteAt, WF, ByteOk, FreeSet;
    DataKeepsWF(v, m, s, k, b);
    SlotDir(v, m, s);
    assert m.chains[s][k] in m.chains[s];
    FlushGrown(v0, m0, v, m, s, k, b, PutCluster(v, m.chains[s][k], b));
  }

  lemma FlushGrown(v0: Volume, m0: Meta, v: Volume, m: Meta, s: Slot, k: nat, b: Cluster, v': Volume)
    requires Grown(v0, m0, v, m, s) && s in m.chains && k < |m.chains[s]| && m.chains[s][k] < |v.disk|
    requires v' == PutCluster(v, m.chains[s][k], b)
    requires forall t: Slot :: t.dir in m.depth ==> EntryAt(v', t) == EntryAt(v, t)
    ensures Grown(v0, m0, v', m, s)
  {
    hide EntryAt, FreeSet, Lengthening;
    assert m.chains[s][k] in m.chains[s];
  }

  lemma SlotDir(v: Volume, m: Meta, s: Slot)
    requires WF(v, m) && s in m.chains
    ensures s.dir in m.depth && 2 <= s.dir < CLUSTER_MAP_SIZE && RESERVED_ENTRY <= s.idx < MAX_DIR_TABLE_ENTRY
    ensures Used(EntryAt(v, s))
  {
    hide EntryAt, IsLink;
    assert Linked(v, m, s.dir);
  }

  /** Appending a free cluster when the chain is used up. */
  lemma Append(v0: Volume, m0: Meta, v: Volume, m: Meta, s: Slot, p0: nat, p: nat, data: seq<char>, f: nat)
    requires Writing(v0, m0, v, m, s, p0, p, data, v.disk) && |m0.chains[s]| > 0
    requires f < CLUSTER_MAP_SIZE && v.fat[f] == FAT32_FAT_EMPTY_ENTRY && p == |m.chains[s]| * CLUSTER_SIZE
    ensures m.chains[s] != [] && m.chains[s][|m.chains[s]| - 1] < CLUSTER_MAP_SIZE
    ensures var v' := PutFat(v, LinkCells(v.fat, m.chains[s][|m.chains[s]| - 1], f));
      Writing(v0, m0, v', Extended(m, s, f), s, p0, p, data, v'.disk)
  {
    hide EntryAt, ByteAt, WF, ByteOk, IsDir;
    ExtendKeepsWF(v, m, s, f);
    var ch := m.chains[s];
    var v', m' := PutFat(v, LinkCells(v.fat, ch[|ch| - 1], f)), Extended(m, s, f);
    SlotDir(v, m, s);
    AppendFree(v, m, s, f);
    AppendGrown(v0, m0, v, m, s, f);
    forall x: nat | x < |m'.chains[s]| * CLUSTER_SIZE
      ensures ByteOk(v0, m0, s, p0, p, data, v'.disk, m'.chains[s], x)
    {
      AppendByte(v0, m0, v, m, s, p0, p, data, f, x);
    }
  }

  lemma AppendGrown(v0: Volume, m0: Meta, v: Volume, m: Meta, s: Slot, f: nat)
    requires Grown(v0, m0, v, m, s) && s in m.chains && |m.chains[s]| > 0
    requires m.chains[s][|m.chains[s]| - 1] < CLUSTER_MAP_SIZE
    requires 3 <= f < CLUSTER_MAP_SIZE && f !in m.home && v.fat[f] == FAT32_FAT_EMPTY_ENTRY
    requires var v' := PutFat(v, LinkCells(v.fat, m.chains[s][|m.chains[s]| - 1], f));
      (forall t: Slot :: t.dir in m.depth ==> EntryAt(v', t) == EntryAt(v, t))
        && |FreeSet(v.fat)| == |FreeSet(v'.fat)| + 1
    ensures Grown(v0, m0, PutFat(v, LinkCells(v.fat, m.chains[s][|m.chains[s]| - 1], f)), Extended(m, s, f), s)
  {
    hide EntryAt, FreeSet, LinkCells, EncodeFat, Lengthening;
    AppendLengthened(v0, m0, v, m, s, f);
  }

  lemma AppendLengthened(v0: Volume, m0: Meta, v: Volume, m: Meta, s: Slot, f: nat)
    requires Lengthened(v0, m0, v, m, s) && s in m.chains && |m.chains[s]| > 0
    requires m.chains[s][|m.chains[s]| - 1] < CLUSTER_MAP_SIZE
    requires 3 <= f < CLUSTER_MAP_SIZE && v.fat[f] == FAT32_FAT_EMPTY_ENTRY
    ensures Lengthened(v0, m0, PutFat(v, LinkCells(v.fat, m.chains[s][|m.chains[s]| - 1], f)), Extended(m, s, f), s)
  {
    hide LinkCells, EncodeFat, Extended, Lengthening;
    var fs :| Lengthening(v0.fat, m0, s, fs, v.fat, m);
    LengtheningSnoc(v0.fat, m0, s, fs, v.fat, m, f);
  }

  lemma AppendFree(v: Volume, m: Meta, s: Slot, f: nat)
    requires WF(v, m) && s in m.chains && |m.chains[s]| > 0 && m.chains[s][|m.chains[s]| - 1] < CLUSTER_MAP_SIZE
    requires f < CLUSTER_MAP_SIZE && v.fat[f] == FAT32_FAT_EMPTY_ENTRY
    ensures |FreeSet(v.fat)| == |FreeSet(LinkCells(v.fat, m.chains[s][|m.chains[s]| - 1], f))| + 1
  {
    hide EntryAt, Tree, EncodeFat, FsSignature;
    var ch := m.chains[s];
    assert Owns(m, s, |ch| - 1) && f !in m.home;
    var fat' := LinkCells(v.fat, ch[|ch| - 1], f);
    assert IsChain(v.fat, ch);
    assert 0 <= v.fat[ch[|ch| - 1]] && fat'[ch[|ch| - 1]] == f;
    forall c
      ensures c in FreeSet(v.fat) <==> c in FreeSet(fat') + {f}
    {
    }
    assert FreeSet(v.fat) == FreeSet(fat') + {f};
  }

  lemma AppendByte(v0: Volume, m0: Meta, v: Volume, m: Meta, s: Slot, p0: nat, p: nat, data: seq<char>, f: nat, x: nat)
    requires Writing(v0, m0, v, m, s, p0, p, data, v.disk) && |m0.chains[s]| > 0
    requires f < CLUSTER_MAP_SIZE && p == |m.chains[s]| * CLUSTER_SIZE && x < p + CLUSTER_SIZE
    requires m.chains[s] != [] && m.chains[s][|m.chains[s]| - 1] < CLUSTER_MAP_SIZE
    ensures var v' := PutFat(v, LinkCells(v.fat, m.chains[s][|m.chains[s]| - 1], f));
      ByteOk(v0, m0, s, p0, p, data, v'.disk, m.chains[s] + [f], x)
  {
    hide EntryAt, LinkCells, EncodeFat, IsDir;
    if x < p {
      ChainBounds(v, m, s, x / CLUSTER_SIZE);
      assert ByteOk(v0, m0, s, p0, p, data, v.disk, m.chains[s], x);
    }
  }

  lemma ChainBounds(v: Volume, m: Meta, s: Slot, k: nat)
    requires WF(v, m) && s in m.chains && k < |m.chains[s]|
    ensures 3 <= m.chains[s][k] < CLUSTER_MAP_SIZE
  {
    assert IsChain(v.fat, m.chains[s]);
  }

  /** Storing one byte in the buffer that caches cluster `p / CLUSTER_SIZE` of the chain. */
  lemma Poke(v0: Volume, m0: Meta, v: Volume, m: Meta, s: Slot, p0: nat, p: nat, data: seq<char>, b: Cluster, c: char)
    requires s in m.chains && p < |m.chains[s]| * CLUSTER_SIZE && p < p0 + |data|
    requires m.chains[s][p / CLUSTER_SIZE] < |v.disk|
    requires p0 <= p && c == data[p - p0]
    requires Writing(v0, m0, v, m, s, p0, p, data, DiskWith(v, m.chains[s][p / CLUSTER_SIZE], b))
    ensures Writing(v0, m0, v, m, s, p0, p + 1, data,
      DiskWith(v, m.chains[s][p / CLUSTER_SIZE], PutByte(b, p % CLUSTER_SIZE, c)))
  {
    hide EntryAt, ByteAt, WF, ByteOk, IsDir, Grown, DiskWith, PutByte;
    var ch := m.chains[s];
    var disk' := DiskWith(v, ch[p / CLUSTER_SIZE], PutByte(b, p % CLUSTER_SIZE, c));
    assert s in m0.chains by { GrownHas(v0, m0, v, m, s); }
    var p' := p + 1;
    forall x: nat | x < |ch| * CLUSTER_SIZE
      ensures ByteOk(v0, m0, s, p0, p', data, disk', ch, x)
    {
      PokeByte(v0, m0, v, m, s, p0, p, data, b, c, x);
    }
  }

  lemma GrownHas(v0: Volume, m0: Meta, v: Volume, m: Meta, s: Slot)
    requires Grown(v0, m0, v, m, s)
    ensures s in m0.chains
  {
  }

  lemma PokeByte(v0: Volume, m0: Meta, v: Volume, m: Meta, s: Slot, p0: nat, p: nat, data: seq<char>, b: Cluster,
                 c: char, x: nat)
    requires s in m.chains && s in m0.chains && p < |m.chains[s]| * CLUSTER_SIZE && p < p0 + |data|
    requires m.chains[s][p / CLUSTER_SIZE] < |v.disk| && x < |m.chains[s]| * CLUSTER_SIZE
    requires p0 <= p && c == data[p - p0]
    requires Writing(v0, m0, v, m, s, p0, p, data, DiskWith(v, m.chains[s][p / CLUSTER_SIZE], b))
    ensures ByteOk(v0, m0, s, p0, p + 1, data,
      DiskWith(v, m.chains[s][p / CLUSTER_SIZE], PutByte(b, p % CLUSTER_SIZE, c)), m.chains[s], x)
  {
    hide EntryAt, IsDir, IsLink, Tree, Header;
    var ch := m.chains[s];
    var disk := DiskWith(v, ch[p / CLUSTER_SIZE], b);
    assert ByteOk(v0, m0, s, p0, p, data, disk, ch, x);
    if ch[x / CLUSTER_SIZE] == ch[p / CLUSTER_SIZE] {
      assert IsChain(v.fat, ch);
      ChainDistinct(v.fat, ch, x / CLUSTER_SIZE, p / CLUSTER_SIZE);
      assert x % CLUSTER_SIZE == p % CLUSTER_SIZE ==> x == p;
    }
  }

  // ---------- the end of a write ----------

  /** Slot `t` keeps its entry, its chain and, for a file, the data in it. */
  ghost predicate Kept(v0: Volume, m0: Meta, v: Volume, m: Meta, t: Slot) {
    && t in m0.chains && t in m.chains && m.chains[t] == m0.chains[t] && EntryAt(v, t) == EntryAt(v0, t)
    && |v.disk| == |v0.disk|
    && (!IsDir(EntryAt(v0, t)) ==>
          forall k :: 0 <= k < |m.chains[t]| && m.chains[t][k] < |v.disk| ==>
            v.disk[m.chains[t][k]] == v0.disk[m.chains[t][k]])
  }

  lemma KeptObj(v0: Volume, m0: Meta, v: Volume, m: Meta, t: Slot)
    requires Kept(v0, m0, v, m, t)
    ensures ObjOf(v, m, t) == ObjOf(v0, m0, t)
  {
    hide EntryAt;
    if !IsDir(EntryAt(v0, t)) {
      var ch, n := m.chains[t], EntryAt(v, t).filesize;
      forall x: nat | x < n
        ensures Content(v, ch, n)[x] == Content(v0, ch, n)[x]
      {
      }
    }
  }

  /** After a write only the file written and its directory entry may differ. */
  lemma WriteKeeps(v0: Volume, m0: Meta, v: Volume, m: Meta, s: Slot, v': Volume, t: Slot)
    requires WF(v, m) && Grown(v0, m0, v, m, s) && t in m.chains && t != s
    requires |v'.disk| == |v.disk| && EntryAt(v', t) == EntryAt(v, t)
    requires forall c | 0 <= c < |v.disk| && c != s.dir :: v'.disk[c] == v.disk[c]
    ensures Kept(v0, m0, v', m, t)
  {
    hide EntryAt, IsLink, Linked, Hung, Housed, FreeSet, Header;
    SlotDir(v, m, s);
    SlotDir(v, m, t);
    if !IsDir(EntryAt(v0, t)) {
      forall k | 0 <= k < |m.chains[t]| && m.chains[t][k] < |v'.disk|
        ensures v'.disk[m.chains[t][k]] == v0.disk[m.chains[t][k]]
      {
        FileCluster(v, m, t, k);
        NotIn(m, v.fat, t, k, s);
      }
    }
  }

  lemma {:induction false} DistinctBound(a: seq<nat>, n: nat)
    requires forall i, j :: 0 <= i < j < |a| ==> a[i] != a[j]
    requires forall i :: 0 <= i < |a| ==> a[i] < n
    ensures |a| <= n
  {
    if a == [] {
    } else if assert a[0] < n; exists i :: 0 <= i < |a| && a[i] == n - 1 {
      var i :| 0 <= i < |a| && a[i] == n - 1;
      var b := a[..i] + a[i + 1..];
      DistinctBound(b, n - 1);
    } else {
      DistinctBound(a, n - 1);
    }
  }

  lemma ChainShort(fat: FatMap, ch: seq<nat>)
    requires IsChain(fat, ch)
    ensures |ch| <= CLUSTER_MAP_SIZE
  {
    forall i, j | 0 <= i < j < |ch|
      ensures ch[i] != ch[j]
    {
      if ch[i] == ch[j] { ChainDistinct(fat, ch, i, j); }
    }
    DistinctBound(ch, CLUSTER_MAP_SIZE);
  }

  /** The contents of the file in slot `s`. */
  ghost function Bytes(v: Volume, m: Meta, s: Slot): (r: seq<char>)
    ensures s in m.chains ==> |r| == EntryAt(v, s).filesize
  {
    if s in m.chains then Content(v, m.chains[s], EntryAt(v, s).filesize) else []
  }

  /** The bytes of the file written, up to any length the old file or the new data reaches. */
  lemma WrittenContent(v0: Volume, m0: Meta, v: Volume, m: Meta, s: Slot, p0: nat, p: nat, data: seq<char>, n: nat)
    requires s in m.chains && s in m0.chains && p0 <= p <= p0 + |data|
    requires p0 <= |Bytes(v0, m0, s)| <= |m0.chains[s]| * CLUSTER_SIZE
    requires n <= Max(p, |Bytes(v0, m0, s)|)
    requires Writing(v0, m0, v, m, s, p0, p, data, v.disk)
    ensures Content(v, m.chains[s], n) == Overlay(Bytes(v0, m0, s), p0, data[..p - p0])[..n]
  {
    hide EntryAt, ByteAt, WF, FreeSet, IsDir;
    var size0 := EntryAt(v0, s).filesize;
    var c0 := Bytes(v0, m0, s);
    var want := Overlay(c0, p0, data[..p - p0]);
    forall x: nat | x < n
      ensures Content(v, m.chains[s], n)[x] == want[x]
    {
      assert ByteOk(v0, m0, s, p0, p, data, v.disk, m.chains[s], x);
    }
  }

  /** The outcome of a completed write of `data` at `p0`: the file in `s` has the new bytes cut to `size`,
      and no other entry, chain or file has changed. */
  ghost predicate Finished(v0: Volume, m0: Meta, v: Volume, m: Meta, s: Slot, p0: nat, data: seq<char>, size: nat) {
    && s in m.chains && s in m0.chains && p0 <= |Bytes(v0, m0, s)| && size <= Max(p0 + |data|, |Bytes(v0, m0, s)|)
    && WF(v, m) && SameNames(v0, m0, v, m) && EntryAt(v, s).filesize == size
    && (forall t {:trigger m.chains[t]} | t in m.chains && t != s :: Kept(v0, m0, v, m, t))
    && Bytes(v, m, s) == Overlay(Bytes(v0, m0, s), p0, data)[..size]
    && OthersKept(v0, v, m, s) && Lengthened(v0, m0, v, m, s) && Mirrored(v0, v)
  }

  /** Only the entry in slot `s` may have changed, of all directories, used or not. */
  ghost predicate OthersKept(v0: Volume, v: Volume, m: Meta, s: Slot) {
    forall t: Slot {:trigger EntryAt(v, t)} :: t.dir in m.depth && t != s ==> EntryAt(v, t) == EntryAt(v0, t)
  }

  /** A completed write: size and contents of the file, and nothing else, have changed. */
  lemma FinishWrite(v0: Volume, m0: Meta, v: Volume, m: Meta, s: Slot, p0: nat, data: seq<char>, size: nat, v': Volume)
    requires s in m.chains && s in m0.chains && p0 <= |Bytes(v0, m0, s)|
    requires size <= Max(p0 + |data|, |Bytes(v0, m0, s)|) && size <= |m.chains[s]| * CLUSTER_SIZE
    requires size < 0x1_0000_0000
    requires s.dir < |v.disk| && s.idx < MAX_DIR_TABLE_ENTRY
    requires v' == PutEntry(v, s, EntryAt(v, s).(filesize := size))
    requires WF(v0, m0) && Writing(v0, m0, v, m, s, p0, p0 + |data|, data, v.disk)
    ensures Finished(v0, m0, v', m, s, p0, data, size)
    ensures forall c | c in m.chains[s] && c < |v.disk| :: c < |v'.disk| && v'.disk[c] == v.disk[c]
  {
    hide WF, EntryAt, EncodeTable, Overlay, Kept, SameNames, OthersKept, Grown, Writing, Lengthening, Mirrored,
         PutEntry, Content;
    var e := EntryAt(v, s).(filesize := size);
    WritingGrown(v0, m0, v, m, s, p0, p0 + |data|, data);
    SizeCovered(v0, m0, s);
    SlotDir(v, m, s);
    ResizeKeepsWF(v, m, s, size);
    EntryPut(v, s, e);
    forall t | t in m.chains && t != s
      ensures Kept(v0, m0, v', m, t)
    {
      WriteKeeps(v0, m0, v, m, s, v', t);
    }
    GrownNames(v0, m0, v, m, s, v');
    FinishContent(v0, m0, v, m, s, p0, data, size, v');
    GrownMirrored(v0, m0, v, m, s);
    EntryMirrored(v0, v, s, e);
  }

  lemma WritingGrown(v0: Volume, m0: Meta, v: Volume, m: Meta, s: Slot, p0: nat, p: nat, data: seq<char>)
    requires s in m.chains && Writing(v0, m0, v, m, s, p0, p, data, v.disk)
    ensures WF(v, m) && Grown(v0, m0, v, m, s) && s in m0.chains && !IsDir(EntryAt(v, s))
    ensures EntryAt(v, s) == EntryAt(v0, s)
  {
    hide EntryAt, IsDir, FreeSet, Lengthened;
    SlotDir(v, m, s);
  }

  lemma EntryPut(v: Volume, s: Slot, e: DirEntry)
    requires s.dir < |v.disk| && s.idx < MAX_DIR_TABLE_ENTRY
    ensures forall t :: EntryAt(PutEntry(v, s, e), t) == if t == s then e else EntryAt(v, t)
    ensures var v' := PutEntry(v, s, e);
      |v'.disk| == |v.disk| && v'.fat == v.fat && forall c | 0 <= c < |v.disk| && c != s.dir :: v'.disk[c] == v.disk[c]
  {
    hide EntryAt, EncodeTable;
    forall t
      ensures EntryAt(PutEntry(v, s, e), t) == if t == s then e else EntryAt(v, t)
    {
      PutEntryAt(v, s, e, t);
    }
  }

  lemma GrownNames(v0: Volume, m0: Meta, v: Volume, m: Meta, s: Slot, v': Volume)
    requires WF(v, m) && Grown(v0, m0, v, m, s) && s in m.chains && EntryAt(v, s) == EntryAt(v0, s)
    requires SameButSize(EntryAt(v, s), EntryAt(v', s)) && forall t :: t != s ==> EntryAt(v', t) == EntryAt(v, t)
    ensures SameNames(v0, m0, v', m) && OthersKept(v0, v', m, s)
  {
    hide EntryAt, FreeSet, Lengthened, WF;
    forall t | t in m.chains
      ensures SameButSize(EntryAt(v0, t), EntryAt(v', t))
    {
      SlotDir(v, m, t);
    }
  }

  lemma GrownMirrored(v0: Volume, m0: Meta, v: Volume, m: Meta, s: Slot)
    requires WF(v, m) && Grown(v0, m0, v, m, s) && s in m.chains
    ensures Mirrored(v0, v) && Lengthened(v0, m0, v, m, s)
  {
    hide EntryAt, FreeSet, EncodeFat, Tree, Lengthened;
    assert IsChain(v.fat, m.chains[s]);
    assert 0 !in m.chains[s];
  }

  lemma EntryMirrored(v0: Volume, v: Volume, s: Slot, e: DirEntry)
    requires Mirrored(v0, v) && 2 <= s.dir < |v.disk| && s.idx < MAX_DIR_TABLE_ENTRY
    ensures Mirrored(v0, PutEntry(v, s, e)) && PutEntry(v, s, e).fat == v.fat
  {
    hide EncodeFat, EncodeTable;
  }

  lemma FinishContent(v0: Volume, m0: Meta, v: Volume, m: Meta, s: Slot, p0: nat, data: seq<char>, size: nat,
                      v': Volume)
    requires s in m.chains && s in m0.chains && p0 <= |Bytes(v0, m0, s)| <= |m0.chains[s]| * CLUSTER_SIZE
    requires size <= Max(p0 + |data|, |Bytes(v0, m0, s)|)
    requires |v'.disk| == |v.disk| && forall c | 0 <= c < |v.disk| && c != s.dir :: v'.disk[c] == v.disk[c]
    requires SameButSize(EntryAt(v0, s), EntryAt(v', s)) && EntryAt(v', s).filesize == size
    requires Writing(v0, m0, v, m, s, p0, p0 + |data|, data, v.disk)
    ensures ObjOf(v', m, s) == File(Overlay(Bytes(v0, m0, s), p0, data)[..size])
    ensures forall c | c in m.chains[s] && c < |v.disk| :: v'.disk[c] == v.disk[c]
  {
    hide EntryAt, WF, FreeSet, Overlay, Content;
    SlotDir(v, m, s);
    forall k | 0 <= k < |m.chains[s]|
      ensures m.chains[s][k] != s.dir
    {
      FileCluster(v, m, s, k);
    }
    WrittenContent(v0, m0, v, m, s, p0, p0 + |data|, data, size);
    assert data[..|data|] == data;
    SameContent(v, v', m.chains[s], size);
  }

  lemma SameContent(v: Volume, v': Volume, ch: seq<nat>, n: nat)
    requires |v'.disk| == |v.disk|
    requires forall k | 0 <= k < |ch| && ch[k] < |v.disk| :: v'.disk[ch[k]] == v.disk[ch[k]]
    ensures Content(v', ch, n) == Content(v, ch, n)
  {
    forall x: nat | x < n
      ensures Content(v', ch, n)[x] == Content(v, ch, n)[x]
    {
    }
  }

  /** The outcome of a write that ran out of clusters after `p - p0` bytes: the size is unchanged, and the
      bytes stored so far show within it. */
  ghost predicate Stopped(v0: Volume, m0: Meta, v: Volume, m: Meta, s: Slot, p0: nat, p: nat, data: seq<char>) {
    && s in m0.chains && s in m.chains && p0 <= |Bytes(v0, m0, s)| && p0 <= p <= p0 + |data|
    && SameNames(v0, m0, v, m) && EntryAt(v, s) == EntryAt(v0, s)
    && (forall t {:trigger m.chains[t]} | t in m.chains && t != s :: Kept(v0, m0, v, m, t))
    && Bytes(v, m, s) == Overlay(Bytes(v0, m0, s), p0, data[..p - p0])[..|Bytes(v0, m0, s)|]
    && OthersKept(v0, v, m, s) && WF(v, m) && Lengthened(v0, m0, v, m, s) && Mirrored(v0, v)
  }

  /** A write that ran out of clusters: the bytes stored so far show within the old size. */
  lemma FullWrite(v0: Volume, m0: Meta, v: Volume, m: Meta, s: Slot, p0: nat, p: nat, data: seq<char>)
    requires s in m.chains && s in m0.chains && p0 <= |Bytes(v0, m0, s)| && p0 <= p <= p0 + |data|
    requires WF(v0, m0) && Writing(v0, m0, v, m, s, p0, p, data, v.disk)
    ensures Stopped(v0, m0, v, m, s, p0, p, data)
  {
    hide EntryAt, ByteAt, Header, Partitioned, Linked, Hung, FreeSet, IsLink, Overlay, Content;
    assert Housed(v0, m0, s);
    forall t | t in m.chains
      ensures SameButSize(EntryAt(v0, t), EntryAt(v, t)) && EntryAt(v, t) == EntryAt(v0, t)
    {
      SlotDir(v, m, t);
    }
    forall t | t in m.chains && t != s
      ensures Kept(v0, m0, v, m, t)
    {
      WriteKeeps(v0, m0, v, m, s, v, t);
    }
    WrittenContent(v0, m0, v, m, s, p0, p, data, |Bytes(v0, m0, s)|);
    GrownMirrored(v0, m0, v, m, s);
  }

  /** An empty first write still flushes the handle's buffer over the first cluster. */
  lemma StaleFlush(v: Volume, m: Meta, s: Slot, b: Cluster)
    requires s in m.chains && m.chains[s] != [] && m.chains[s][0] < |v.disk|
    requires !IsDir(EntryAt(v, s)) && WF(v, m)
    ensures Writing(v, m, PutCluster(v, m.chains[s][0], b), m, s, 0, CLUSTER_SIZE, b,
      PutCluster(v, m.chains[s][0], b).disk)
  {
    hide EntryAt, ByteAt, Header, Partitioned, IsDir, WF;
    var ch := m.chains[s];
    var v' := PutCluster(v, ch[0], b);
    StartWriting(v, m, s, 0, b);
    DataKeepsWF(v, m, s, 0, b);
    FlushGrown(v, m, v, m, s, 0, b, v');
    SlotDir(v, m, s);
    forall x: nat | x < |ch| * CLUSTER_SIZE
      ensures ByteOk(v, m, s, 0, CLUSTER_SIZE, b, v'.disk, ch, x)
    {
      StaleByte(v, m, s, b, x);
    }
  }

  lemma SizeCovered(v: Volume, m: Meta, s: Slot)
    requires WF(v, m) && s in m.chains && !IsDir(EntryAt(v, s))
    ensures |Bytes(v, m, s)| <= |m.chains[s]| * CLUSTER_SIZE && m.chains[s] != []
    ensures |m.chains[s]| * CLUSTER_SIZE < 0x1_0000_0000
  {
    hide EntryAt, IsLink, Linked, Hung;
    assert Housed(v, m, s) && IsChain(v.fat, m.chains[s]);
    ChainShort(v.fat, m.chains[s]);
  }

  lemma StaleByte(v: Volume, m: Meta, s: Slot, b: Cluster, x: nat)
    requires WF(v, m) && s in m.chains && m.chains[s] != [] && m.chains[s][0] < |v.disk|
    requires x < |m.chains[s]| * CLUSTER_SIZE
    ensures ByteOk(v, m, s, 0, CLUSTER_SIZE, b, PutCluster(v, m.chains[s][0], b).disk, m.chains[s], x)
  {
    hide EntryAt, Content, Tree, Header;
    assert IsChain(v.fat, m.chains[s]);
    if m.chains[s][x / CLUSTER_SIZE] == m.chains[s][0] {
      ChainDistinct(v.fat, m.chains[s], x / CLUSTER_SIZE, 0);
    }
  }

  /** What `write_vfs` did to the file in slot `s`, starting at offset `p0` and ending at `p`, when asked to
      write `data` with `stale` in the handle's buffer: it returns `r`. */
  ghost predicate Written(v0: Volume, m0: Meta, v: Volume, m: Meta, s: Slot, p0: nat, p: nat,
                          stale: Cluster, data: seq<char>, r: int)
  {
    && s in m0.chains && s in m.chains && p0 <= |Bytes(v0, m0, s)| && p0 <= p <= p0 + |data|
    // No other entry changes.
    && SameNames(v0, m0, v, m)
    && (forall t {:trigger m.chains[t]} | t in m.chains && t != s :: Kept(v0, m0, v, m, t))
    // The chain grows by the clusters needed and no more.
    && |m.chains[s]| == Max(|m0.chains[s]|, Clusters(p))
    // It fails exactly when the disk cannot hold the new length.
    && (r == |data| || r == -1)
    && (r == -1 <==> Clusters(p0 + |data|) > |m0.chains[s]| + |FreeSet(v0.fat)|)
    && (r >= 0 ==>
          p == p0 + |data|
          // An empty first write flushes the stale buffer; any other lays the data over the file.
          && Bytes(v, m, s) == if p > 0 then Overlay(Bytes(v0, m0, s), p0, data)
                               else Overlay(Bytes(v0, m0, s), 0, stale)[..|Bytes(v0, m0, s)|])
    // A failed write keeps the old size; what was stored before the disk filled up shows within it.
    && (r == -1 ==>
          p < p0 + |data| && EntryAt(v, s) == EntryAt(v0, s)
          && Bytes(v, m, s) == Overlay(Bytes(v0, m0, s), p0, data[..p - p0])[..|Bytes(v0, m0, s)|])
    // The table has changed by that growth only, and is on the disk.
    && OthersKept(v0, v, m, s) && Lengthened(v0, m0, v, m, s) && Mirrored(v0, v)
  }

  /** When a write fails, and what a write with something in the file before it or in it leaves. */
  lemma WrittenMeans(v0: Volume, m0: Meta, v: Volume, m: Meta, s: Slot, p0: nat, p: nat, stale: Cluster,
                     data: seq<char>, r: int)
    requires Written(v0, m0, v, m, s, p0, p, stale, data, r)
    ensures s in m0.chains && p0 <= |Bytes(v0, m0, s)|
    ensures r == |data| || r == -1
    ensures var free := |set c | 0 <= c < CLUSTER_MAP_SIZE && v0.fat[c] == 0|;
      r == -1 <==> p0 + |data| > (|m0.chains[s]| + free) * CLUSTER_SIZE
    ensures r >= 0 && p > 0 ==>
      p == p0 + |data| && Bytes(v, m, s) == Overlay(Bytes(v0, m0, s), p0, data)
  {
    hide EntryAt, SameNames, Kept, OthersKept, Lengthened, Mirrored, Bytes, Overlay;
    assert FreeSet(v0.fat) == set c | 0 <= c < CLUSTER_MAP_SIZE && v0.fat[c] == 0;
    ClustersFit(p0 + |data|, |m0.chains[s]| + |FreeSet(v0.fat)|);
  }

  lemma FinishedWritten(v0: Volume, m0: Meta, v: Volume, m: Meta, s: Slot, p0: nat, p: nat, stale: Cluster,
                        data: seq<char>, size: nat)
    requires p == p0 + |data| && size == Max(p, |Bytes(v0, m0, s)|)
    requires s in m0.chains && s in m.chains && Clusters(p) <= |m0.chains[s]| + |FreeSet(v0.fat)|
    requires |m.chains[s]| == Max(|m0.chains[s]|, Clusters(p))
    requires Finished(v0, m0, v, m, s, p0, if p == 0 then stale else data, size)
    ensures Written(v0, m0, v, m, s, p0, p, stale, data, |data|)
    ensures WF(v, m) && IsDir(EntryAt(v, s)) == IsDir(EntryAt(v0, s)) && EntryAt(v, s).filesize == size
    ensures !IsDir(EntryAt(v, s)) ==> size <= |m.chains[s]| * CLUSTER_SIZE
  {
    hide EntryAt, IsDir, WF, SameNames, Kept, FreeSet, Content;
    SameNamesAt(v0, m0, v, m, s);
    if !IsDir(EntryAt(v, s)) { SizeCovered(v, m, s); }
  }

  lemma FullWritten(v0: Volume, m0: Meta, v: Volume, m: Meta, s: Slot, p0: nat, p: nat, stale: Cluster, data: seq<char>)
    requires s in m0.chains && s in m.chains && p0 <= |Bytes(v0, m0, s)| && p0 <= p < p0 + |data|
    requires Clusters(p0 + |data|) > |m0.chains[s]| + |FreeSet(v0.fat)|
    requires |m.chains[s]| == Max(|m0.chains[s]|, Clusters(p))
    requires Stopped(v0, m0, v, m, s, p0, p, data)
    ensures Written(v0, m0, v, m, s, p0, p, stale, data, -1)
  {
    hide EntryAt, WF, SameNames, Kept, FreeSet, Content, Overlay;
  }

  // ---------- well-formedness after a write ----------

  /** A write on a well-formed volume leaves a well-formed one, whatever its answer. */
  lemma WrittenKeepsWF(v0: Volume, m0: Meta, v: Volume, m: Meta, s: Slot, p0: nat, p: nat, stale: Cluster,
                       data: seq<char>, r: int)
    requires WF(v0, m0) && !IsDir(EntryAt(v0, s)) && Written(v0, m0, v, m, s, p0, p, stale, data, r)
    ensures WF(v, m)
  {
    hide EntryAt, IsDir, Kept, Overlay, FreeSet, Clusters, Tree, Partitioned, Header, Bytes, Lengthening;
    var fs :| Lengthening(v0.fat, m0, s, fs, v.fat, m);
    LengtheningKeeps(v0.fat, m0, s, fs, v.fat, m);
    MirroredHeader(v0, v);
    SizeCovered(v0, m0, s);
    WrittenSize(v0, m0, v, m, s, p0, p, stale, data, r);
    WrittenTree(v0, m0, v, m, s);
  }

  lemma MirroredHeader(v0: Volume, v: Volume)
    requires Header(v0) && Mirrored(v0, v) && v.fat[..3] == v0.fat[..3]
    ensures Header(v)
  {
    hide EncodeFat, FsSignature;
    assert v.fat[0] == v.fat[..3][0] && v.fat[1] == v.fat[..3][1] && v.fat[2] == v.fat[..3][2];
  }

  /** The chain covers the new size. */
  lemma WrittenSize(v0: Volume, m0: Meta, v: Volume, m: Meta, s: Slot, p0: nat, p: nat, stale: Cluster,
                    data: seq<char>, r: int)
    requires Written(v0, m0, v, m, s, p0, p, stale, data, r) && |Bytes(v0, m0, s)| <= |m0.chains[s]| * CLUSTER_SIZE
    ensures s in m.chains && EntryAt(v, s).filesize <= |m.chains[s]| * CLUSTER_SIZE
  {
    hide EntryAt, Kept, SameNames, FreeSet, Lengthened, Mirrored, OthersKept, Content, Overlay;
    ClustersFit(p, |m.chains[s]|);
  }

  lemma WrittenTree(v0: Volume, m0: Meta, v: Volume, m: Meta, s: Slot)
    requires WF(v0, m0) && s in m0.chains && !IsDir(EntryAt(v0, s)) && SameNames(v0, m0, v, m)
    requires OthersKept(v0, v, m, s) && s in m.chains && EntryAt(v, s).filesize <= |m.chains[s]| * CLUSTER_SIZE
    requires forall t {:trigger m.chains[t]} | t in m.chains && t != s :: Kept(v0, m0, v, m, t)
    requires m0.chains[s] <= m.chains[s] && forall c | c in m0.home :: c in m.home && m.home[c] == m0.home[c]
    ensures Tree(v, m)
  {
    hide EntryAt, IsDir, Tree, Partitioned, Header;
    forall t | t in m0.chains && t != s
      ensures m.chains[t] == m0.chains[t]
      ensures !IsDir(EntryAt(v0, t)) ==> EntryAt(v, t).filesize <= |m.chains[t]| * CLUSTER_SIZE
    {
      assert Kept(v0, m0, v, m, t);
      if !IsDir(EntryAt(v0, t)) { SizeCovered(v0, m0, t); }
    }
    TreeFrame(v0, m0, v, m);
  }
}
