/** The volume as a value, its well-formedness, and the effect of each kind of update on it.
    The methods of `Fat32` are compositions of these updates. */
module FatVolume {
  import opened FatLayout

  /** A disk of clusters together with the file allocation table cached in memory. */
  datatype RawVolume = Volume(disk: seq<Cluster>, fat: FatMap)

  function BlankCluster(): Cluster { Zeros(CLUSTER_SIZE) }

  function BlankVolume(): RawVolume {
    Volume(seq(CLUSTER_MAP_SIZE, i => BlankCluster()), seq(CLUSTER_MAP_SIZE, i => 0))
  }

  type Volume = v: RawVolume | |v.disk| >= CLUSTER_MAP_SIZE ghost witness BlankVolume()

  /** A directory slot: the cluster of the directory table and the index in it. */
  datatype Slot = Slot(dir: nat, idx: nat)

  /** What a well-formed volume determines: the cluster chain of every used slot, the slot owning
      every allocated cluster, and the depth of every directory cluster in the tree. */
  datatype Meta = Meta(chains: map<Slot, seq<nat>>, home: map<nat, Slot>, depth: map<nat, nat>)

  function Table(v: Volume, d: nat): DirTable {
    if d < |v.disk| then DecodeTable(v.disk[d]) else EmptyTable(0, 0)
  }

  function EntryAt(v: Volume, s: Slot): DirEntry {
    if s.dir < |v.disk| && s.idx < MAX_DIR_TABLE_ENTRY then Table(v, s.dir)[s.idx] else ZERO_ENTRY
  }

  // ---------- chains ----------

  ghost predicate Step(fat: FatMap, ch: seq<nat>, k: nat)
    requires forall i :: 0 <= i < |ch| ==> ch[i] < CLUSTER_MAP_SIZE
  {
    k + 1 < |ch| ==> fat[ch[k]] == ch[k + 1]
  }

  /** `ch` is a chain of data clusters linked through `fat` and closed by end-of-file. */
  ghost predicate IsChain(fat: FatMap, ch: seq<nat>) {
    && |ch| > 0
    && (forall k :: 0 <= k < |ch| ==> 3 <= ch[k] < CLUSTER_MAP_SIZE)
    && (forall k :: 0 <= k < |ch| ==> Step(fat, ch, k))
    && fat[ch[|ch| - 1]] == FAT32_FAT_END_OF_FILE
  }

  /** A chain is determined by its first cluster. */
  lemma {:induction false} ChainUnique(fat: FatMap, a: seq<nat>, b: seq<nat>)
    requires IsChain(fat, a) && IsChain(fat, b) && a[0] == b[0]
    ensures a == b
  {
    if |a| == 1 {
      assert fat[a[0]] == FAT32_FAT_END_OF_FILE;
      assert Step(fat, b, 0);
    } else {
      assert Step(fat, a, 0) && Step(fat, b, 0);
      ChainTail(fat, a);
      ChainTail(fat, b);
      ChainUnique(fat, a[1..], b[1..]);
      assert a == [a[0]] + a[1..] && b == [b[0]] + b[1..];
    }
  }

  lemma ChainTail(fat: FatMap, a: seq<nat>)
    requires IsChain(fat, a) && |a| > 1
    ensures IsChain(fat, a[1..])
  {
    forall k | 0 <= k < |a[1..]|
      ensures Step(fat, a[1..], k)
    {
      assert Step(fat, a, k + 1);
    }
  }

  lemma {:induction false} ChainSuffix(fat: FatMap, a: seq<nat>, i: nat)
    requires IsChain(fat, a) && i < |a|
    ensures IsChain(fat, a[i..])
  {
    if i > 0 {
      ChainTail(fat, a);
      ChainSuffix(fat, a[1..], i - 1);
      assert a[1..][i - 1..] == a[i..];
    }
  }

  /** Chains are acyclic. */
  lemma ChainDistinct(fat: FatMap, a: seq<nat>, i: nat, j: nat)
    requires IsChain(fat, a) && i < |a| && j < |a| && a[i] == a[j]
    ensures i == j
  {
    ChainSuffix(fat, a, i);
    ChainSuffix(fat, a, j);
    ChainUnique(fat, a[i..], a[j..]);
  }

  lemma ChainFrame(fat: FatMap, fat': FatMap, ch: seq<nat>)
    requires IsChain(fat, ch) && forall k :: 0 <= k < |ch| ==> fat'[ch[k]] == fat[ch[k]]
    ensures IsChain(fat', ch)
  {
    forall k | 0 <= k < |ch|
      ensures Step(fat', ch, k)
    {
      assert Step(fat, ch, k);
    }
  }

  // ---------- well-formedness ----------

  /** The reserved cells, and the agreement between memory and disk that a remount relies on. */
  ghost predicate Header(v: Volume) {
    && v.fat[0] == CLUSTER_0_VALUE && v.fat[1] == CLUSTER_0_VALUE && v.fat[2] == FAT32_FAT_END_OF_FILE
    && v.disk[0][..BLOCK_SIZE] == FsSignature()
    && v.disk[1] == EncodeFat(v.fat)
  }

  ghost predicate Owns(m: Meta, s: Slot, k: nat)
    requires s in m.chains && k < |m.chains[s]|
  {
    m.chains[s][k] in m.home && m.home[m.chains[s][k]] == s
  }

  ghost predicate Owned(m: Meta, c: nat)
    requires c in m.home
  {
    m.home[c] in m.chains && c in m.chains[m.home[c]]
  }

  /** Every allocated cluster from 3 up lies in exactly one chain: no cross-link and no leak. */
  ghost predicate Partitioned(fat: FatMap, m: Meta) {
    && (forall s {:trigger m.chains[s]} | s in m.chains :: IsChain(fat, m.chains[s]))
    && (forall s, k {:trigger Owns(m, s, k)} | s in m.chains && 0 <= k < |m.chains[s]| :: Owns(m, s, k))
    && (forall c :: c in m.home <==> 3 <= c < CLUSTER_MAP_SIZE && fat[c] != FAT32_FAT_EMPTY_ENTRY)
    && (forall c {:trigger Owned(m, c)} | c in m.home :: Owned(m, c))
  }

  /** Chains of different slots share no cluster. */
  lemma ChainsDisjoint(fat: FatMap, m: Meta, s: Slot, i: nat, t: Slot, j: nat)
    requires Partitioned(fat, m) && s in m.chains && t in m.chains && i < |m.chains[s]| && j < |m.chains[t]|
    requires m.chains[s][i] == m.chains[t][j]
    ensures s == t && i == j
  {
    assert Owns(m, s, i) && Owns(m, t, j);
    ChainDistinct(fat, m.chains[s], i, j);
  }

  /** Following the table from a cluster of a chain gives the next one, and end-of-file at the end. */
  lemma ChainNext(v: Volume, m: Meta, s: Slot, k: nat)
    requires WF(v, m) && s in m.chains && k < |m.chains[s]|
    ensures 3 <= m.chains[s][k] < CLUSTER_MAP_SIZE
    ensures v.fat[m.chains[s][k]] == if k + 1 < |m.chains[s]| then m.chains[s][k + 1] else FAT32_FAT_END_OF_FILE
    ensures k + 1 < |m.chains[s]| ==> 3 <= m.chains[s][k + 1] < CLUSTER_MAP_SIZE
  {
    hide Tree, Header;
    assert IsChain(v.fat, m.chains[s]) && Step(v.fat, m.chains[s], k);
  }

  ghost function ParentDir(m: Meta, d: nat): nat {
    if d != ROOT_CLUSTER_NUMBER && d in m.home then m.home[d].dir else ROOT_CLUSTER_NUMBER
  }

  /** The cluster `d` holds a directory table whose first two entries name itself and its parent. */
  ghost predicate Linked(v: Volume, m: Meta, d: nat) {
    && 2 <= d < CLUSTER_MAP_SIZE
    && IsLink(EntryAt(v, Slot(d, 0)), ".", d)
    && IsLink(EntryAt(v, Slot(d, 1)), "..", ParentDir(m, d))
  }

  /** A directory other than the root is owned by one directory slot, one level above it. */
  ghost predicate Hung(v: Volume, m: Meta, d: nat) {
    && d in m.home && m.home[d] in m.chains && m.chains[m.home[d]] == [d]
    && IsDir(EntryAt(v, m.home[d]))
    && m.home[d].dir in m.depth && d in m.depth && m.depth[d] == m.depth[m.home[d].dir] + 1
  }

  /** A used slot heads its chain; a directory is one cluster, a file's chain covers its size. */
  ghost predicate Housed(v: Volume, m: Meta, s: Slot)
    requires s in m.chains
  {
    var e, ch := EntryAt(v, s), m.chains[s];
    && Terminated(e) && |ch| > 0 && ch[0] == ClusterOf(e)
    && if IsDir(e) then |ch| == 1 && ch[0] in m.depth && ch[0] != ROOT_CLUSTER_NUMBER
       else e.filesize <= |ch| * CLUSTER_SIZE && ch[0] !in m.depth
  }

  ghost predicate Tree(v: Volume, m: Meta) {
    && ROOT_CLUSTER_NUMBER in m.depth && m.depth[ROOT_CLUSTER_NUMBER] == 0
    && (forall d {:trigger Linked(v, m, d)} | d in m.depth :: Linked(v, m, d))
    && (forall d {:trigger Hung(v, m, d)} | d in m.depth && d != ROOT_CLUSTER_NUMBER :: Hung(v, m, d))
    && (forall s :: s in m.chains <==>
          s.dir in m.depth && RESERVED_ENTRY <= s.idx < MAX_DIR_TABLE_ENTRY && Used(EntryAt(v, s)))
    && (forall s {:trigger Housed(v, m, s)} | s in m.chains :: Housed(v, m, s))
  }

  ghost predicate WF(v: Volume, m: Meta) {
    Header(v) && Partitioned(v.fat, m) && Tree(v, m)
  }

  /** A cluster of a file's chain is neither reserved nor a directory table. */
  lemma FileCluster(v: Volume, m: Meta, s: Slot, k: nat)
    requires WF(v, m) && s in m.chains && !IsDir(EntryAt(v, s)) && k < |m.chains[s]|
    ensures 3 <= m.chains[s][k] < CLUSTER_MAP_SIZE && m.chains[s][k] !in m.depth
  {
    var c := m.chains[s][k];
    assert IsChain(v.fat, m.chains[s]) && Owns(m, s, k);
    assert c in m.depth ==> Hung(v, m, c);
  }

  // ---------- updates ----------

  function PutCluster(v: Volume, c: nat, b: Cluster): Volume
    requires c < |v.disk|
  {
    v.(disk := v.disk[c := b])
  }

  function PutFat(v: Volume, fat: FatMap): Volume {
    Volume(v.disk[FAT_CLUSTER_NUMBER := EncodeFat(fat)], fat)
  }

  function PutEntry(v: Volume, s: Slot, e: DirEntry): Volume
    requires s.dir < |v.disk| && s.idx < MAX_DIR_TABLE_ENTRY
  {
    PutCluster(v, s.dir, EncodeTable(Table(v, s.dir)[s.idx := e]))
  }

  lemma PutEntryAt(v: Volume, s: Slot, e: DirEntry, t: Slot)
    requires s.dir < |v.disk| && s.idx < MAX_DIR_TABLE_ENTRY
    ensures EntryAt(PutEntry(v, s, e), t) == if t == s then e else EntryAt(v, t)
  {
    TableRoundTrip(Table(v, s.dir)[s.idx := e]);
  }

  lemma PutFatAt(v: Volume, fat: FatMap, t: Slot)
    requires t.dir != FAT_CLUSTER_NUMBER
    ensures EntryAt(PutFat(v, fat), t) == EntryAt(v, t)
  {
  }

  lemma PutClusterAt(v: Volume, c: nat, b: Cluster, t: Slot)
    requires c < |v.disk| && t.dir != c
    ensures EntryAt(PutCluster(v, c, b), t) == EntryAt(v, t)
  {
  }

  lemma PutTableAt(v: Volume, c: nat, tab: DirTable, t: Slot)
    requires c < |v.disk| && t.dir == c && t.idx < MAX_DIR_TABLE_ENTRY
    ensures EntryAt(PutCluster(v, c, EncodeTable(tab)), t) == tab[t.idx]
  {
    TableRoundTrip(tab);
  }

  lemma PutFatHeader(v: Volume, fat: FatMap)
    requires Header(v) && fat[..3] == v.fat[..3]
    ensures Header(PutFat(v, fat))
  {
    hide EncodeFat, FsSignature;
    assert fat[0] == fat[..3][0] && fat[1] == fat[..3][1] && fat[2] == fat[..3][2];
  }

  lemma PutClusterHeader(v: Volume, c: nat, b: Cluster)
    requires Header(v) && 2 <= c < |v.disk|
    ensures Header(PutCluster(v, c, b))
  {
    hide EncodeFat, FsSignature;
  }

  /** Overwriting file data changes no directory entry and keeps the volume well formed. */
  lemma DataKeepsWF(v: Volume, m: Meta, s: Slot, k: nat, b: Cluster)
    requires WF(v, m) && s in m.chains && !IsDir(EntryAt(v, s)) && k < |m.chains[s]|
    ensures m.chains[s][k] < |v.disk|
    ensures WF(PutCluster(v, m.chains[s][k], b), m)
    ensures forall t: Slot :: t.dir in m.depth ==> EntryAt(PutCluster(v, m.chains[s][k], b), t) == EntryAt(v, t)
  {
    hide EntryAt, Tree, Partitioned, EncodeFat, FsSignature;
    FileCluster(v, m, s, k);
    SameTablesKeepWF(v, PutCluster(v, m.chains[s][k], b), m);
  }

  /** The tree survives when entries change only in size, chains only grow, and sizes stay covered. */
  lemma TreeFrame(v: Volume, m: Meta, v': Volume, m': Meta)
    requires Tree(v, m)
    requires m'.depth == m.depth && m'.chains.Keys == m.chains.Keys
    requires forall c | c in m.home :: c in m'.home && m'.home[c] == m.home[c]
    requires forall t: Slot :: t.dir in m.depth ==> SameButSize(EntryAt(v, t), EntryAt(v', t))
    requires forall t {:trigger m'.chains[t]} | t in m.chains :: m.chains[t] <= m'.chains[t]
    requires forall t {:trigger m'.chains[t]} | t in m.chains ::
      if IsDir(EntryAt(v, t)) then m'.chains[t] == m.chains[t]
      else EntryAt(v', t).filesize <= |m'.chains[t]| * CLUSTER_SIZE
    ensures Tree(v', m')
  {
    hide EntryAt, Linked, Hung, Housed, IsLink, Terminated;
    forall d | d in m.depth
      ensures Linked(v', m', d) && (d != ROOT_CLUSTER_NUMBER ==> Hung(v', m', d))
    {
      DirFrame(v, m, v', m', d);
    }
    forall t | t in m.chains
      ensures Housed(v', m', t)
    {
      HousedFrame(v, m, v', m', t);
    }
  }

  lemma DirFrame(v: Volume, m: Meta, v': Volume, m': Meta, d: nat)
    requires Tree(v, m) && d in m.depth
    requires m'.depth == m.depth && m'.chains.Keys == m.chains.Keys
    requires forall c | c in m.home :: c in m'.home && m'.home[c] == m.home[c]
    requires forall t: Slot :: t.dir in m.depth ==> SameButSize(EntryAt(v, t), EntryAt(v', t))
    requires forall t {:trigger m'.chains[t]} | t in m.chains && IsDir(EntryAt(v, t)) :: m'.chains[t] == m.chains[t]
    ensures Linked(v', m', d) && (d != ROOT_CLUSTER_NUMBER ==> Hung(v', m', d))
  {
    hide EntryAt, ClusterOf, CStr, Housed;
    assert Linked(v, m, d);
    assert d != ROOT_CLUSTER_NUMBER ==> Hung(v, m, d);
    SameButSizeReads(EntryAt(v, Slot(d, 0)), EntryAt(v', Slot(d, 0)));
    SameButSizeReads(EntryAt(v, Slot(d, 1)), EntryAt(v', Slot(d, 1)));
    if d == ROOT_CLUSTER_NUMBER {
      assert ParentDir(m', d) == ParentDir(m, d);
    } else {
      assert m'.chains[m.home[d]] == [d];
    }
  }

  lemma HousedFrame(v: Volume, m: Meta, v': Volume, m': Meta, t: Slot)
    requires t in m.chains && Housed(v, m, t) && m'.depth == m.depth && t in m'.chains
    requires SameButSize(EntryAt(v, t), EntryAt(v', t)) && m.chains[t] <= m'.chains[t]
    requires if IsDir(EntryAt(v, t)) then m'.chains[t] == m.chains[t]
             else EntryAt(v', t).filesize <= |m'.chains[t]| * CLUSTER_SIZE
    ensures Housed(v', m', t)
  {
    hide EntryAt, CStr;
    SameButSizeReads(EntryAt(v, t), EntryAt(v', t));
  }

  ghost predicate SameButSize(e: DirEntry, e': DirEntry) { e' == e.(filesize := e'.filesize) }

  lemma SameButSizeReads(e: DirEntry, e': DirEntry)
    requires SameButSize(e, e')
    ensures ClusterOf(e') == ClusterOf(e) && FullName(e') == FullName(e)
  {
  }

  lemma SameTablesKeepWF(v: Volume, v': Volume, m: Meta)
    requires WF(v, m) && v'.fat == v.fat && v'.disk[0] == v.disk[0] && v'.disk[1] == v.disk[1]
    requires forall d | d in m.depth && d < CLUSTER_MAP_SIZE :: v'.disk[d] == v.disk[d]
    ensures WF(v', m)
    ensures forall t: Slot :: t.dir in m.depth ==> EntryAt(v', t) == EntryAt(v, t)
  {
    SameTables(v, v', m);
    forall t | t in m.chains
      ensures !IsDir(EntryAt(v, t)) ==> EntryAt(v', t).filesize <= |m.chains[t]| * CLUSTER_SIZE
    {
      assert Housed(v, m, t);
    }
    TreeFrame(v, m, v', m);
  }

  lemma SameTables(v: Volume, v': Volume, m: Meta)
    requires Tree(v, m)
    requires forall d | d in m.depth && d < CLUSTER_MAP_SIZE :: v'.disk[d] == v.disk[d]
    ensures forall t: Slot :: t.dir in m.depth ==> EntryAt(v', t) == EntryAt(v, t)
  {
    forall t: Slot | t.dir in m.depth
      ensures EntryAt(v', t) == EntryAt(v, t)
    {
      assert Linked(v, m, t.dir);
    }
  }

  /** Recording a new size that the chain still covers. */
  lemma ResizeKeepsWF(v: Volume, m: Meta, s: Slot, size: nat)
    requires WF(v, m) && s in m.chains && !IsDir(EntryAt(v, s))
    requires size <= |m.chains[s]| * CLUSTER_SIZE && size < 0x1_0000_0000
    ensures s.dir < |v.disk| && s.idx < MAX_DIR_TABLE_ENTRY
    ensures WF(PutEntry(v, s, EntryAt(v, s).(filesize := size)), m)
  {
    hide EntryAt, EncodeTable, EncodeFat, FsSignature, IsLink;
    assert Linked(v, m, s.dir);
    var e := EntryAt(v, s).(filesize := size);
    forall t: Slot
      ensures EntryAt(PutEntry(v, s, e), t) == if t == s then e else EntryAt(v, t)
    {
      PutEntryAt(v, s, e, t);
    }
    forall t | t in m.chains
      ensures !IsDir(EntryAt(v, t)) ==> EntryAt(PutEntry(v, s, e), t).filesize <= |m.chains[t]| * CLUSTER_SIZE
    {
      assert Housed(v, m, t);
    }
    TreeFrame(v, m, PutEntry(v, s, e), m);
  }

  /** Appending a free cluster to a chain. */
  ghost function Extended(m: Meta, s: Slot, f: nat): Meta
    requires s in m.chains
  {
    m.(chains := m.chains[s := m.chains[s] + [f]], home := m.home[f := s])
  }

  function LinkCells(fat: FatMap, last: nat, f: nat): FatMap
    requires last < CLUSTER_MAP_SIZE && f < CLUSTER_MAP_SIZE
  {
    fat[last := f][f := FAT32_FAT_END_OF_FILE]
  }

  lemma ExtendKeepsWF(v: Volume, m: Meta, s: Slot, f: nat)
    requires WF(v, m) && s in m.chains && !IsDir(EntryAt(v, s))
    requires f < CLUSTER_MAP_SIZE && v.fat[f] == FAT32_FAT_EMPTY_ENTRY
    ensures 3 <= f && f !in m.home && m.chains[s] != [] && 3 <= m.chains[s][|m.chains[s]| - 1] < CLUSTER_MAP_SIZE
    ensures WF(PutFat(v, LinkCells(v.fat, m.chains[s][|m.chains[s]| - 1], f)), Extended(m, s, f))
    ensures forall t: Slot :: t.dir in m.depth ==>
      EntryAt(PutFat(v, LinkCells(v.fat, m.chains[s][|m.chains[s]| - 1], f)), t) == EntryAt(v, t)
  {
    hide EntryAt, EncodeFat, FsSignature, IsLink;
    var ch := m.chains[s];
    assert IsChain(v.fat, ch);
    var fat' := LinkCells(v.fat, ch[|ch| - 1], f);
    var v', m' := PutFat(v, fat'), Extended(m, s, f);
    ExtendPartition(v.fat, m, s, f);
    PutFatHeader(v, fat');
    ExtendTree(v, m, s, f, v');
  }

  lemma ExtendTree(v: Volume, m: Meta, s: Slot, f: nat, v': Volume)
    requires WF(v, m) && s in m.chains && !IsDir(EntryAt(v, s)) && f !in m.home
    requires exists fat :: v' == PutFat(v, fat)
    ensures Tree(v', Extended(m, s, f))
    ensures forall t: Slot :: t.dir in m.depth ==> EntryAt(v', t) == EntryAt(v, t)
  {
    hide EntryAt, EncodeFat, FsSignature, IsLink, Header, Partitioned;
    var fat :| v' == PutFat(v, fat);
    var m' := Extended(m, s, f);
    forall t: Slot | t.dir in m.depth
      ensures EntryAt(v', t) == EntryAt(v, t)
    {
      assert Linked(v, m, t.dir);
      PutFatAt(v, fat, t);
    }
    forall t | t in m.chains
      ensures !IsDir(EntryAt(v, t)) ==> EntryAt(v', t).filesize <= |m'.chains[t]| * CLUSTER_SIZE
    {
      assert Housed(v, m, t);
    }
    TreeFrame(v, m, v', m');
  }

  lemma ExtendChain(fat: FatMap, ch: seq<nat>, f: nat)
    requires IsChain(fat, ch) && 3 <= f < CLUSTER_MAP_SIZE && fat[f] == FAT32_FAT_EMPTY_ENTRY
    ensures IsChain(LinkCells(fat, ch[|ch| - 1], f), ch + [f])
  {
    var last := ch[|ch| - 1];
    var fat', ch' := LinkCells(fat, last, f), ch + [f];
    forall k | 0 <= k < |ch'|
      ensures Step(fat', ch', k)
    {
      if k < |ch| {
        assert Step(fat, ch, k);
        if ch[k] == last { ChainDistinct(fat, ch, k, |ch| - 1); }
      }
    }
  }

  lemma ExtendPartition(fat: FatMap, m: Meta, s: Slot, f: nat)
    requires Partitioned(fat, m) && s in m.chains && 3 <= f < CLUSTER_MAP_SIZE && fat[f] == FAT32_FAT_EMPTY_ENTRY
    ensures m.chains[s] != [] && m.chains[s][|m.chains[s]| - 1] < CLUSTER_MAP_SIZE
    ensures Partitioned(LinkCells(fat, m.chains[s][|m.chains[s]| - 1], f), Extended(m, s, f))
  {
    var ch := m.chains[s];
    assert IsChain(fat, ch);
    var last := ch[|ch| - 1];
    var fat', m' := LinkCells(fat, last, f), Extended(m, s, f);
    assert Owns(m, s, |ch| - 1);
    assert f !in m.home;
    forall t | t in m'.chains
      ensures IsChain(fat', m'.chains[t])
    {
      if t == s {
        ExtendChain(fat, ch, f);
      } else {
        forall k | 0 <= k < |m.chains[t]|
          ensures fat'[m.chains[t][k]] == fat[m.chains[t][k]]
        {
          assert Owns(m, t, k);
        }
        ChainFrame(fat, fat', m.chains[t]);
      }
    }
    forall t, k | t in m'.chains && 0 <= k < |m'.chains[t]|
      ensures Owns(m', t, k)
    {
      assert (t != s || k < |ch|) ==> Owns(m, t, k);
    }
    forall c | c in m'.home
      ensures Owned(m', c)
    {
      assert c != f ==> Owned(m, c);
      assert (ch + [f])[|ch|] == f;
    }
  }

  // ---------- creating an entry ----------

  ghost function Created(m: Meta, s: Slot, f: nat, dir: bool): Meta {
    Meta(m.chains[s := [f]], m.home[f := s],
         if dir && s.dir in m.depth then m.depth[f := m.depth[s.dir] + 1] else m.depth)
  }

  function CreateEntry(v: Volume, s: Slot, e: DirEntry, f: nat): Volume
    requires s.dir < |v.disk| && s.idx < MAX_DIR_TABLE_ENTRY && f < CLUSTER_MAP_SIZE
  {
    var v1 := PutEntry(v, s, e);
    var v2 := PutFat(v1, v1.fat[f := FAT32_FAT_END_OF_FILE]);
    if IsDir(e) then PutCluster(v2, f, EncodeTable(EmptyTable(f, s.dir))) else v2
  }

  /** `e` may be written into the free slot `s`, heading the free cluster `f`. */
  ghost predicate Creatable(v: Volume, m: Meta, s: Slot, e: DirEntry, f: nat) {
    && s.dir in m.depth && RESERVED_ENTRY <= s.idx < MAX_DIR_TABLE_ENTRY && !Used(EntryAt(v, s))
    && f < CLUSTER_MAP_SIZE && v.fat[f] == FAT32_FAT_EMPTY_ENTRY
    && Used(e) && Terminated(e) && ClusterOf(e) == f && (!IsDir(e) ==> e.filesize <= CLUSTER_SIZE)
  }

  lemma CreatePartition(fat: FatMap, m: Meta, s: Slot, f: nat, dir: bool)
    requires Partitioned(fat, m) && s !in m.chains && 3 <= f < CLUSTER_MAP_SIZE && fat[f] == FAT32_FAT_EMPTY_ENTRY
    ensures Partitioned(fat[f := FAT32_FAT_END_OF_FILE], Created(m, s, f, dir))
  {
    var fat', m' := fat[f := FAT32_FAT_END_OF_FILE], Created(m, s, f, dir);
    assert f !in m.home;
    forall t | t in m'.chains
      ensures IsChain(fat', m'.chains[t])
    {
      if t != s {
        forall k | 0 <= k < |m.chains[t]|
          ensures fat'[m.chains[t][k]] == fat[m.chains[t][k]]
        {
          assert Owns(m, t, k);
        }
        ChainFrame(fat, fat', m.chains[t]);
      }
    }
    forall t, k | t in m'.chains && 0 <= k < |m'.chains[t]|
      ensures Owns(m', t, k)
    {
      assert t != s ==> Owns(m, t, k);
    }
    forall c | c in m'.home
      ensures Owned(m', c)
    {
      assert c != f ==> Owned(m, c);
    }
  }

  lemma CreateFresh(v: Volume, m: Meta, s: Slot, e: DirEntry, f: nat)
    requires WF(v, m) && Creatable(v, m, s, e, f)
    ensures 3 <= f && f !in m.depth && f !in m.home && s !in m.chains && 2 <= s.dir < CLUSTER_MAP_SIZE
  {
    hide EntryAt, IsLink, EncodeFat, FsSignature;
    assert Linked(v, m, s.dir);
    assert f in m.depth && f != ROOT_CLUSTER_NUMBER ==> Hung(v, m, f);
  }

  lemma CreateEntries(v: Volume, m: Meta, s: Slot, e: DirEntry, f: nat)
    requires WF(v, m) && Creatable(v, m, s, e, f)
    ensures s.dir < CLUSTER_MAP_SIZE
    ensures forall t: Slot :: t.dir in m.depth ==>
      EntryAt(CreateEntry(v, s, e, f), t) == if t == s then e else EntryAt(v, t)
    ensures IsDir(e) ==> forall t: Slot :: t.dir == f && t.idx < MAX_DIR_TABLE_ENTRY ==>
      EntryAt(CreateEntry(v, s, e, f), t) == EmptySlot(t.idx, f, s.dir)
  {
    hide EntryAt, PutEntry, PutFat, PutCluster, IsLink, EncodeTable, Header, Partitioned;
    CreateFresh(v, m, s, e, f);
    var v1 := PutEntry(v, s, e);
    var fat := v1.fat[f := FAT32_FAT_END_OF_FILE];
    var v2 := PutFat(v1, fat);
    forall t: Slot | t.dir in m.depth
      ensures EntryAt(CreateEntry(v, s, e, f), t) == if t == s then e else EntryAt(v, t)
    {
      assert Linked(v, m, t.dir);
      PutEntryAt(v, s, e, t);
      PutFatAt(v1, fat, t);
      PutClusterAt(v2, f, EncodeTable(EmptyTable(f, s.dir)), t);
    }
    forall t: Slot | IsDir(e) && t.dir == f && t.idx < MAX_DIR_TABLE_ENTRY
      ensures EntryAt(CreateEntry(v, s, e, f), t) == EmptySlot(t.idx, f, s.dir)
    {
      PutTableAt(v2, f, EmptyTable(f, s.dir), t);
    }
  }

  lemma CreateHeader(v: Volume, s: Slot, e: DirEntry, f: nat)
    requires Header(v) && 2 <= s.dir < CLUSTER_MAP_SIZE && s.idx < MAX_DIR_TABLE_ENTRY && 3 <= f < CLUSTER_MAP_SIZE
    ensures Header(CreateEntry(v, s, e, f))
    ensures CreateEntry(v, s, e, f).fat == v.fat[f := FAT32_FAT_END_OF_FILE]
  {
    hide EntryAt, EncodeTable, EncodeFat, FsSignature, Header;
    var v1 := PutEntry(v, s, e);
    PutClusterHeader(v, s.dir, EncodeTable(Table(v, s.dir)[s.idx := e]));
    var v2 := PutFat(v1, v1.fat[f := FAT32_FAT_END_OF_FILE]);
    PutFatHeader(v1, v1.fat[f := FAT32_FAT_END_OF_FILE]);
    PutClusterHeader(v2, f, EncodeTable(EmptyTable(f, s.dir)));
  }

  lemma CreateKeepsWF(v: Volume, m: Meta, s: Slot, e: DirEntry, f: nat)
    requires WF(v, m) && Creatable(v, m, s, e, f)
    ensures s.dir < CLUSTER_MAP_SIZE
    ensures WF(CreateEntry(v, s, e, f), Created(m, s, f, IsDir(e)))
  {
    hide EntryAt, EncodeTable, EncodeFat, FsSignature, ClusterOf, IsLink, Header, CreateEntry;
    CreateFresh(v, m, s, e, f);
    CreateEntries(v, m, s, e, f);
    CreatePartition(v.fat, m, s, f, IsDir(e));
    CreateHeader(v, s, e, f);
    CreateTree(v, m, s, e, f, CreateEntry(v, s, e, f));
  }

  lemma CreateTree(v: Volume, m: Meta, s: Slot, e: DirEntry, f: nat, v': Volume)
    requires WF(v, m) && Creatable(v, m, s, e, f)
    requires forall t: Slot :: t.dir in m.depth ==> EntryAt(v', t) == if t == s then e else EntryAt(v, t)
    requires IsDir(e) ==> forall t: Slot :: t.dir == f && t.idx < MAX_DIR_TABLE_ENTRY ==>
      EntryAt(v', t) == EmptySlot(t.idx, f, s.dir)
    ensures Tree(v', Created(m, s, f, IsDir(e)))
  {
    hide EntryAt, ClusterOf, IsLink, Header, Partitioned, Linked, Hung, Housed, EmptySlot, Creatable;
    var m' := Created(m, s, f, IsDir(e));
    assert s.dir in m.depth && f != ROOT_CLUSTER_NUMBER by { CreateFresh(v, m, s, e, f); CreatableDir(v, m, s, e, f); }
    forall d | d in m'.depth
      ensures Linked(v', m', d) && (d != ROOT_CLUSTER_NUMBER ==> Hung(v', m', d))
    {
      CreateDir(v, m, s, e, f, v', d);
    }
    CreateUsed(v, m, s, e, f, v');
    forall t | t in m'.chains
      ensures Housed(v', m', t)
    {
      CreateHoused(v, m, s, e, f, v', t);
    }
  }

  lemma CreatableDir(v: Volume, m: Meta, s: Slot, e: DirEntry, f: nat)
    requires Creatable(v, m, s, e, f)
    ensures s.dir in m.depth
  {
  }

  lemma CreateHoused(v: Volume, m: Meta, s: Slot, e: DirEntry, f: nat, v': Volume, t: Slot)
    requires WF(v, m) && Creatable(v, m, s, e, f) && t in Created(m, s, f, IsDir(e)).chains
    requires t.dir in m.depth ==> EntryAt(v', t) == if t == s then e else EntryAt(v, t)
    ensures Housed(v', Created(m, s, f, IsDir(e)), t)
  {
    hide EntryAt, ClusterOf, IsLink, Header, LinkEntry, Linked, Hung, CStr;
    CreateFresh(v, m, s, e, f);
    assert t != s ==> Housed(v, m, t) && Owns(m, t, 0);
  }

  lemma CreateUsed(v: Volume, m: Meta, s: Slot, e: DirEntry, f: nat, v': Volume)
    requires WF(v, m) && Creatable(v, m, s, e, f)
    requires forall t: Slot :: t.dir in m.depth ==> EntryAt(v', t) == if t == s then e else EntryAt(v, t)
    requires IsDir(e) ==> forall t: Slot :: t.dir == f && t.idx < MAX_DIR_TABLE_ENTRY ==>
      EntryAt(v', t) == EmptySlot(t.idx, f, s.dir)
    ensures forall t: Slot :: t in Created(m, s, f, IsDir(e)).chains <==>
      t.dir in Created(m, s, f, IsDir(e)).depth && RESERVED_ENTRY <= t.idx < MAX_DIR_TABLE_ENTRY && Used(EntryAt(v', t))
  {
    hide EntryAt, ClusterOf, IsLink, Header, LinkEntry, Partitioned, Housed, Linked, Hung;
    CreateFresh(v, m, s, e, f);
  }

  lemma CreateDir(v: Volume, m: Meta, s: Slot, e: DirEntry, f: nat, v': Volume, d: nat)
    requires WF(v, m) && Creatable(v, m, s, e, f) && d in Created(m, s, f, IsDir(e)).depth
    requires forall t: Slot :: t.dir in m.depth ==> EntryAt(v', t) == if t == s then e else EntryAt(v, t)
    requires IsDir(e) ==> forall t: Slot :: t.dir == f && t.idx < MAX_DIR_TABLE_ENTRY ==>
      EntryAt(v', t) == EmptySlot(t.idx, f, s.dir)
    ensures Linked(v', Created(m, s, f, IsDir(e)), d)
    ensures d != ROOT_CLUSTER_NUMBER ==> Hung(v', Created(m, s, f, IsDir(e)), d)
  {
    hide EntryAt, ClusterOf, IsLink, Header, LinkEntry, Partitioned, Housed;
    CreateFresh(v, m, s, e, f);
    if d == f {
      EmptyTableLinks(f, s.dir);
      assert EntryAt(v', Slot(f, 0)) == EmptySlot(0, f, s.dir) && EntryAt(v', Slot(f, 1)) == EmptySlot(1, f, s.dir);
    } else {
      assert Linked(v, m, d);
      assert EntryAt(v', Slot(d, 0)) == EntryAt(v, Slot(d, 0)) && EntryAt(v', Slot(d, 1)) == EntryAt(v, Slot(d, 1));
      assert d != ROOT_CLUSTER_NUMBER ==> Hung(v, m, d);
    }
  }

  // ---------- removing an entry ----------

  function FreeCells(fat: FatMap, ch: seq<nat>): FatMap {
    seq(CLUSTER_MAP_SIZE, c requires 0 <= c < CLUSTER_MAP_SIZE => if c in ch then FAT32_FAT_EMPTY_ENTRY else fat[c])
  }

  function RemoveEntry(v: Volume, s: Slot, ch: seq<nat>): Volume
    requires s.dir < |v.disk| && s.idx < MAX_DIR_TABLE_ENTRY
  {
    PutFat(PutEntry(v, s, ZERO_ENTRY), FreeCells(v.fat, ch))
  }

  ghost function Removed(m: Meta, s: Slot): Meta
    requires s in m.chains
  {
    var cs := set k | 0 <= k < |m.chains[s]| :: m.chains[s][k];
    Meta(m.chains - {s}, m.home - cs, m.depth - cs)
  }

  /** An entry that may be removed: a file, or a directory without entries. */
  ghost predicate Removable(v: Volume, m: Meta, s: Slot) {
    s in m.chains && forall t | t in m.chains :: t.dir !in m.chains[s]
  }

  lemma RemovePartition(fat: FatMap, m: Meta, s: Slot)
    requires Partitioned(fat, m) && s in m.chains
    ensures Partitioned(FreeCells(fat, m.chains[s]), Removed(m, s))
  {
    var fat', m' := FreeCells(fat, m.chains[s]), Removed(m, s);
    forall t | t in m'.chains
      ensures IsChain(fat', m'.chains[t])
    {
      forall k | 0 <= k < |m.chains[t]|
        ensures fat'[m.chains[t][k]] == fat[m.chains[t][k]]
      {
        NotIn(m, fat, t, k, s);
      }
      ChainFrame(fat, fat', m.chains[t]);
    }
    forall t, k | t in m'.chains && 0 <= k < |m'.chains[t]|
      ensures Owns(m', t, k)
    {
      assert Owns(m, t, k);
      NotIn(m, fat, t, k, s);
    }
    forall c | c in m'.home
      ensures Owned(m', c)
    {
      assert Owned(m, c);
    }
    forall c | c in m.chains[s]
      ensures c in m.home
    {
      var k :| 0 <= k < |m.chains[s]| && m.chains[s][k] == c;
      assert Owns(m, s, k);
    }
  }

  lemma NotIn(m: Meta, fat: FatMap, t: Slot, k: nat, s: Slot)
    requires Partitioned(fat, m) && s in m.chains && t in m.chains && t != s && k < |m.chains[t]|
    ensures m.chains[t][k] !in m.chains[s]
  {
    if m.chains[t][k] in m.chains[s] {
      var j :| 0 <= j < |m.chains[s]| && m.chains[s][j] == m.chains[t][k];
      ChainsDisjoint(fat, m, t, k, s, j);
    }
  }

  lemma RemoveKeepsWF(v: Volume, m: Meta, s: Slot)
    requires WF(v, m) && Removable(v, m, s)
    ensures s.dir < CLUSTER_MAP_SIZE && s.idx < MAX_DIR_TABLE_ENTRY
    ensures WF(RemoveEntry(v, s, m.chains[s]), Removed(m, s))
    ensures forall t: Slot :: t.dir in m.depth ==>
      EntryAt(RemoveEntry(v, s, m.chains[s]), t) == if t == s then ZERO_ENTRY else EntryAt(v, t)
  {
    hide EntryAt, EncodeTable, EncodeFat, FsSignature, ClusterOf, IsLink, Header;
    assert Linked(v, m, s.dir);
    var v', v1 := RemoveEntry(v, s, m.chains[s]), PutEntry(v, s, ZERO_ENTRY);
    RemovePartition(v.fat, m, s);
    RemoveHeader(v, m, s);
    forall t: Slot | t.dir in m.depth
      ensures EntryAt(v', t) == if t == s then ZERO_ENTRY else EntryAt(v, t)
    {
      assert Linked(v, m, t.dir);
      PutEntryAt(v, s, ZERO_ENTRY, t);
      PutFatAt(v1, FreeCells(v.fat, m.chains[s]), t);
    }
    RemoveTree(v, m, s, v');
  }

  lemma RemoveHeader(v: Volume, m: Meta, s: Slot)
    requires WF(v, m) && s in m.chains && 2 <= s.dir < CLUSTER_MAP_SIZE && s.idx < MAX_DIR_TABLE_ENTRY
    ensures Header(RemoveEntry(v, s, m.chains[s]))
    ensures RemoveEntry(v, s, m.chains[s]).fat == FreeCells(v.fat, m.chains[s])
  {
    hide EntryAt, EncodeTable, EncodeFat, FsSignature, Header, IsLink;
    assert IsChain(v.fat, m.chains[s]);
    PutClusterHeader(v, s.dir, EncodeTable(Table(v, s.dir)[s.idx := ZERO_ENTRY]));
    PutFatHeader(PutEntry(v, s, ZERO_ENTRY), FreeCells(v.fat, m.chains[s]));
  }

  lemma RemoveTree(v: Volume, m: Meta, s: Slot, v': Volume)
    requires WF(v, m) && Removable(v, m, s)
    requires forall t: Slot :: t.dir in m.depth ==> EntryAt(v', t) == if t == s then ZERO_ENTRY else EntryAt(v, t)
    ensures Tree(v', Removed(m, s))
  {
    hide EntryAt, ClusterOf, IsLink, Header, Partitioned, Linked, Hung, Housed;
    var m' := Removed(m, s);
    RootNotIn(v, m, s);
    forall d | d in m'.depth
      ensures Linked(v', m', d) && (d != ROOT_CLUSTER_NUMBER ==> Hung(v', m', d))
    {
      RemoveDir(v, m, v', s, d);
    }
    forall t | t in m'.chains
      ensures Housed(v', m', t)
    {
      assert Housed(v, m, t) && EntryAt(v', t) == EntryAt(v, t);
      RemoveHoused(v, m, s, v', t);
    }
    forall t: Slot
      ensures t in m'.chains <==>
        t.dir in m'.depth && RESERVED_ENTRY <= t.idx < MAX_DIR_TABLE_ENTRY && Used(EntryAt(v', t))
    {
      if t.dir in m.depth && t.dir !in m'.depth {
        assert t.dir in m.chains[s];
      }
    }
  }

  lemma RemoveHoused(v: Volume, m: Meta, s: Slot, v': Volume, t: Slot)
    requires Partitioned(v.fat, m) && Removable(v, m, s) && t in Removed(m, s).chains
    requires Housed(v, m, t) && EntryAt(v', t) == EntryAt(v, t)
    ensures Housed(v', Removed(m, s), t)
  {
    hide EntryAt, ClusterOf;
    NotIn(m, v.fat, t, 0, s);
  }

  lemma RootNotIn(v: Volume, m: Meta, s: Slot)
    requires WF(v, m) && s in m.chains
    ensures ROOT_CLUSTER_NUMBER !in m.chains[s]
  {
    assert IsChain(v.fat, m.chains[s]);
  }

  lemma RemoveDir(v: Volume, m: Meta, v': Volume, s: Slot, d: nat)
    requires WF(v, m) && Removable(v, m, s) && d in Removed(m, s).depth
    requires forall t: Slot :: t.dir in m.depth ==> EntryAt(v', t) == if t == s then ZERO_ENTRY else EntryAt(v, t)
    ensures Linked(v', Removed(m, s), d) && (d != ROOT_CLUSTER_NUMBER ==> Hung(v', Removed(m, s), d))
  {
    hide EntryAt, ClusterOf, IsLink;
    assert Linked(v, m, d);
    assert EntryAt(v', Slot(d, 0)) == EntryAt(v, Slot(d, 0)) && EntryAt(v', Slot(d, 1)) == EntryAt(v, Slot(d, 1));
    if d != ROOT_CLUSTER_NUMBER {
      assert Hung(v, m, d);
    }
  }

  // ---------- a fresh volume ----------

  const FRESH_META: Meta := Meta(map[], map[], map[ROOT_CLUSTER_NUMBER := 0])

  /** What `create_fat32` leaves in the cells of the table. */
  function FreshFat(): FatMap {
    seq(CLUSTER_MAP_SIZE, i requires 0 <= i < CLUSTER_MAP_SIZE =>
      if i < 2 then CLUSTER_0_VALUE else if i == 2 then FAT32_FAT_END_OF_FILE else FAT32_FAT_EMPTY_ENTRY)
  }

  lemma FreshWF(v: Volume)
    requires v.fat == FreshFat() && v.disk[0][..BLOCK_SIZE] == FsSignature() && v.disk[1] == EncodeFat(FreshFat())
    requires v.disk[2] == EncodeTable(EmptyTable(ROOT_CLUSTER_NUMBER, ROOT_CLUSTER_NUMBER))
    ensures WF(v, FRESH_META)
  {
    hide FsSignature, EncodeFat, EncodeTable, DecodeTable;
    var t := EmptyTable(ROOT_CLUSTER_NUMBER, ROOT_CLUSTER_NUMBER);
    TableRoundTrip(t);
    EmptyTableLinks(ROOT_CLUSTER_NUMBER, ROOT_CLUSTER_NUMBER);
    assert Table(v, ROOT_CLUSTER_NUMBER) == t;
    assert EntryAt(v, Slot(ROOT_CLUSTER_NUMBER, 0)) == t[0] && EntryAt(v, Slot(ROOT_CLUSTER_NUMBER, 1)) == t[1];
    assert Linked(v, FRESH_META, ROOT_CLUSTER_NUMBER);
    forall s: Slot | s.dir in FRESH_META.depth && RESERVED_ENTRY <= s.idx < MAX_DIR_TABLE_ENTRY
      ensures !Used(EntryAt(v, s))
    {
      assert EntryAt(v, s) == t[s.idx];
    }
  }

  /** The volume determines its description: chains, owners and depths are not a matter of choice. */
  lemma MetaUnique(v: Volume, a: Meta, b: Meta)
    requires WF(v, a) && WF(v, b)
    ensures a == b
  {
    hide EntryAt, IsLink, Linked, Hung, Header, IsChain;
    forall d | d in a.depth
      ensures d in b.depth && b.depth[d] == a.depth[d]
    {
      DepthUnique(v, a, b, d);
    }
    forall d | d in b.depth
      ensures d in a.depth
    {
      DepthUnique(v, b, a, d);
    }
    assert a.depth == b.depth;
    assert a.chains.Keys == b.chains.Keys by {
      forall s ensures s in a.chains <==> s in b.chains {}
    }
    forall s | s in a.chains
      ensures a.chains[s] == b.chains[s]
    {
      SlotChainUnique(v, a, b, s);
    }
    assert a.chains == b.chains;
    assert forall c :: c in a.home <==> c in b.home;
    forall c | c in a.home
      ensures a.home[c] == b.home[c]
    {
      HomeUnique(v, a, b, c);
    }
  }

  lemma SlotChainUnique(v: Volume, a: Meta, b: Meta, s: Slot)
    requires WF(v, a) && WF(v, b) && s in a.chains && s in b.chains
    ensures a.chains[s] == b.chains[s]
  {
    hide EntryAt, IsLink, Linked, Hung, Header;
    assert Housed(v, a, s) && Housed(v, b, s);
    ChainUnique(v.fat, a.chains[s], b.chains[s]);
  }

  lemma HomeUnique(v: Volume, a: Meta, b: Meta, c: nat)
    requires WF(v, a) && WF(v, b) && c in a.home && a.chains == b.chains
    ensures c in b.home && b.home[c] == a.home[c]
  {
    hide EntryAt, IsLink, Linked, Hung, Header, Housed;
    assert Owned(a, c);
    var s := a.home[c];
    var k :| 0 <= k < |a.chains[s]| && a.chains[s][k] == c;
    assert Owns(b, s, k);
  }

  lemma {:induction false} DepthUnique(v: Volume, a: Meta, b: Meta, d: nat)
    requires WF(v, a) && WF(v, b) && d in a.depth
    ensures d in b.depth && b.depth[d] == a.depth[d]
    decreases a.depth[d]
  {
    hide EntryAt, IsLink, Linked, Header, IsChain;
    if d != ROOT_CLUSTER_NUMBER {
      assert Hung(v, a, d);
      var s := a.home[d];
      DepthUnique(v, a, b, s.dir);
      assert s in b.chains;
      assert Housed(v, a, s) && Housed(v, b, s);
      assert b.chains[s][0] == d && Owns(b, s, 0);
      assert Hung(v, b, d);
    }
  }
}
