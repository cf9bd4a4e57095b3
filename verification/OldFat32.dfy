/** The whole-file API over the same disk format (src/helper/old_fat32.c). */
module OldFat32 {
  import opened FatLayout
  import opened FatVolume
  import opened FatTree
  import opened FatFile
  import opened FatNames
  import opened FatZeroed
  import Driver = Fat32Driver

  /** `struct FAT32DriverRequest`, with the memory at `buf`. */
  datatype Request = Request(
    buf: seq<char>, name: seq<char>, ext: seq<char>, parent_cluster_number: nat, buffer_size: nat)

  /** The name fields hold strings that survive being copied into a directory entry. */
  predicate Named(q: Request) {
    && |q.name| == 8 && |q.ext| == 3 && |CStr(q.name)| < 8 && |CStr(q.ext)| < 3
    && q.parent_cluster_number < CLUSTER_MAP_SIZE
  }

  // ---------- finding the parent and the entry ----------

  predicate LooksLikeDir(v: Volume, c: nat)
    requires c < CLUSTER_MAP_SIZE
  {
    && v.fat[c] == FAT32_FAT_END_OF_FILE
    && CStr(Table(v, c)[0].name) == "." && IsDir(Table(v, c)[0])
    && CStr(Table(v, c)[1].name) == ".." && IsDir(Table(v, c)[1])
  }

  /** The check on the parent does not take a file for a directory. */
  ghost predicate HonestParent(v: Volume, m: Meta, c: nat)
    requires c < CLUSTER_MAP_SIZE
  {
    LooksLikeDir(v, c) ==> c in m.depth
  }

  lemma DirLooksLikeDir(v: Volume, m: Meta, d: nat)
    requires WF(v, m) && d in m.depth
    ensures d < CLUSTER_MAP_SIZE && LooksLikeDir(v, d)
  {
    hide IsLink, DecodeTable, CStr, Housed, EncodeFat, FsSignature;
    assert Linked(v, m, d);
    assert EntryAt(v, Slot(d, 0)) == Table(v, d)[0] && EntryAt(v, Slot(d, 1)) == Table(v, d)[1];
    LinkReads(Table(v, d)[0], ".", d);
    LinkReads(Table(v, d)[1], "..", ParentDir(m, d));
    if d != ROOT_CLUSTER_NUMBER {
      assert Hung(v, m, d);
      assert IsChain(v.fat, m.chains[m.home[d]]);
    }
  }

  lemma LinkReads(e: DirEntry, name: seq<char>, c: nat)
    requires IsLink(e, name, c)
    ensures Used(e) && IsDir(e) && CStr(e.name) == name && ClusterOf(e) == c
  {
  }

  /** `get_dir_table_from_cluster`. */
  method GetDirTable(fs: Driver.Fat32, cluster: nat) returns (status: int, dir: DirTable)
    requires fs.Shape() && cluster < CLUSTER_MAP_SIZE
    ensures dir == Table(fs.V(), cluster)
    ensures status == if LooksLikeDir(fs.V(), cluster) then 0 else -1
  {
    dir := DecodeTable(fs.disk[cluster]);
    if fs.cluster_map[cluster] != FAT32_FAT_END_OF_FILE {
      return -1, dir;
    }
    if CStr(dir[0].name) == "." && IsDir(dir[0]) && CStr(dir[1].name) == ".." && IsDir(dir[1]) {
      return 0, dir;
    }
    return -1, dir;
  }

  /** The entry `read` looks for. */
  predicate Matches(e: DirEntry, q: Request) {
    Used(e) && CStr(q.name) == CStr(e.name) && CStr(q.ext) == CStr(e.ext)
  }

  /** The entry that makes `write` answer 1. */
  predicate Clashes(e: DirEntry, q: Request) {
    Used(e) && CStr(q.name) == CStr(e.name) && (q.buffer_size == 0 || CStr(q.ext) == CStr(e.ext))
  }

  /** The entry `delete` takes: the extension is not looked at on a directory. */
  predicate Deletes(e: DirEntry, q: Request) {
    Used(e) && CStr(q.name) == CStr(e.name) && (IsDir(e) || CStr(q.ext) == CStr(e.ext))
  }

  // ---------- linking a new chain ----------

  /** The table after a whole chain of free cells was linked. */
  function LinkChain(fat: FatMap, fs: seq<nat>): FatMap
    requires forall k :: 0 <= k < |fs| ==> fs[k] < CLUSTER_MAP_SIZE
  {
    if fs == [] then fat
    else if |fs| == 1 then fat[fs[0] := FAT32_FAT_END_OF_FILE]
    else LinkCells(LinkChain(fat, fs[..|fs| - 1]), fs[|fs| - 2], fs[|fs| - 1])
  }

  predicate Ascending(fs: seq<nat>) {
    (forall i, j :: 0 <= i < j < |fs| ==> fs[i] < fs[j]) && (forall i :: 0 <= i < |fs| ==> fs[i] < CLUSTER_MAP_SIZE)
  }

  predicate AllFree(fat: FatMap, fs: seq<nat>)
    requires forall k :: 0 <= k < |fs| ==> fs[k] < CLUSTER_MAP_SIZE
  {
    forall k :: 0 <= k < |fs| ==> fat[fs[k]] == FAT32_FAT_EMPTY_ENTRY
  }

  lemma {:induction false} LinkChainOther(fat: FatMap, fs: seq<nat>, c: nat)
    requires Ascending(fs) && c < CLUSTER_MAP_SIZE && c !in fs
    ensures LinkChain(fat, fs)[c] == fat[c]
  {
    if |fs| > 1 {
      var n := |fs| - 1;
      assert fs[n - 1] != c && fs[n] != c && c !in fs[..n];
      LinkChainOther(fat, fs[..n], c);
    }
  }

  lemma {:induction false} LinkChainAt(fat: FatMap, fs: seq<nat>, k: nat)
    requires Ascending(fs) && k < |fs|
    ensures LinkChain(fat, fs)[fs[k]] == if k + 1 < |fs| then fs[k + 1] else FAT32_FAT_END_OF_FILE
  {
    if |fs| > 1 && k < |fs| - 1 {
      var n := |fs| - 1;
      LinkChainAt(fat, fs[..n], k);
      assert fs[k] < fs[n] && (k + 1 < n ==> fs[k] < fs[n - 1]);
    }
  }

  /** The description after an entry heading the whole chain was added. */
  ghost function CreatedChain(m: Meta, s: Slot, fs: seq<nat>, dir: bool): Meta
    requires fs != []
  {
    if |fs| == 1 then Created(m, s, fs[0], dir)
    else
      var m1 := CreatedChain(m, s, fs[..|fs| - 1], dir);
      if s in m1.chains then Extended(m1, s, fs[|fs| - 1]) else m1
  }

  lemma {:induction false} CreatedChainIs(m: Meta, s: Slot, fs: seq<nat>, dir: bool)
    requires fs != []
    ensures var m' := CreatedChain(m, s, fs, dir);
      m'.chains == m.chains[s := fs] && m'.depth == Created(m, s, fs[0], dir).depth
      && (forall c :: c in m'.home <==> c in m.home || c in fs)
      && (forall c {:trigger m'.home[c]} | c in m.home && c !in fs :: m'.home[c] == m.home[c])
      && (forall c {:trigger m'.home[c]} | c in fs :: m'.home[c] == s)
  {
    if |fs| == 1 {
      assert fs == [fs[0]];
    } else {
      var n := |fs| - 1;
      CreatedChainIs(m, s, fs[..n], dir);
      assert fs == fs[..n] + [fs[n]];
    }
  }

  lemma {:induction false} ChainPartition(fat: FatMap, m: Meta, s: Slot, fs: seq<nat>, dir: bool)
    requires fs != [] && Ascending(fs) && AllFree(fat, fs) && 3 <= fs[0]
    requires Partitioned(fat, m) && s !in m.chains
    ensures Partitioned(LinkChain(fat, fs), CreatedChain(m, s, fs, dir))
  {
    hide Partitioned;
    if |fs| == 1 {
      CreatePartition(fat, m, s, fs[0], dir);
    } else {
      var n := |fs| - 1;
      ChainPartition(fat, m, s, fs[..n], dir);
      CreatedChainIs(m, s, fs[..n], dir);
      assert fs[n] !in fs[..n];
      LinkChainOther(fat, fs[..n], fs[n]);
      ExtendPartition(LinkChain(fat, fs[..n]), CreatedChain(m, s, fs[..n], dir), s, fs[n]);
    }
  }

  // ---------- the effect of writing ----------

  /** Cluster `i` of the data, the last one padded with zeros. */
  function Piece(data: seq<char>, i: nat): Cluster {
    seq(CLUSTER_SIZE, x requires 0 <= x => if i * CLUSTER_SIZE + x < |data| then data[i * CLUSTER_SIZE + x] else NUL)
  }

  /** `v'` is `v` with `e` in slot `s`, the clusters `fs` filled and linked, and nothing else changed. */
  ghost predicate Stored(v: Volume, v': Volume, s: Slot, e: DirEntry, fs: seq<nat>, pieces: seq<Cluster>) {
    && s.dir < CLUSTER_MAP_SIZE && s.idx < MAX_DIR_TABLE_ENTRY && Ascending(fs) && |pieces| == |fs|
    && |v'.disk| == |v.disk|
    && v'.fat == LinkChain(v.fat, fs) && v'.disk[FAT_CLUSTER_NUMBER] == EncodeFat(v'.fat)
    && v'.disk[s.dir] == EncodeTable(Table(v, s.dir)[s.idx := e])
    && (forall k :: 0 <= k < |fs| ==> v'.disk[fs[k]] == pieces[k])
    && (forall c :: 0 <= c < |v.disk| && c != FAT_CLUSTER_NUMBER && c != s.dir && c !in fs ==> v'.disk[c] == v.disk[c])
  }

  /** `e` may be written into the free slot `s`, heading the free clusters `fs`. */
  ghost predicate Chainable(v: Volume, m: Meta, s: Slot, e: DirEntry, fs: seq<nat>, pieces: seq<Cluster>) {
    && fs != [] && Ascending(fs) && AllFree(v.fat, fs) && |pieces| == |fs|
    && Creatable(v, m, s, e.(filesize := 0), fs[0])
    && if IsDir(e) then |fs| == 1 && pieces[0] == EncodeTable(EmptyTable(fs[0], s.dir))
       else e.filesize <= |fs| * CLUSTER_SIZE
  }

  lemma FreeNotHome(v: Volume, m: Meta, s: Slot, e: DirEntry, fs: seq<nat>, pieces: seq<Cluster>)
    requires WF(v, m) && Chainable(v, m, s, e, fs, pieces)
    ensures forall k :: 0 <= k < |fs| ==> fs[k] !in m.home && fs[k] !in m.depth && fs[k] >= 3
    ensures s !in m.chains && 2 <= s.dir < CLUSTER_MAP_SIZE && s.dir !in fs
  {
    hide EntryAt, IsLink, EncodeFat, FsSignature, Linked, EncodeTable, EmptyTable;
    CreateFresh(v, m, s, e.(filesize := 0), fs[0]);
    forall k | 0 <= k < |fs|
      ensures fs[k] !in m.home && fs[k] !in m.depth && fs[k] >= 3
    {
      assert fs[k] in m.depth && fs[k] != ROOT_CLUSTER_NUMBER ==> Hung(v, m, fs[k]);
      assert v.fat[2] != FAT32_FAT_EMPTY_ENTRY;
    }
  }

  lemma StoredEntries(v: Volume, m: Meta, v': Volume, s: Slot, e: DirEntry, fs: seq<nat>, pieces: seq<Cluster>)
    requires WF(v, m) && Chainable(v, m, s, e, fs, pieces) && Stored(v, v', s, e, fs, pieces)
    ensures forall t: Slot :: t.dir in m.depth ==> EntryAt(v', t) == if t == s then e else EntryAt(v, t)
    ensures IsDir(e) ==> forall t: Slot :: t.dir == fs[0] && t.idx < MAX_DIR_TABLE_ENTRY ==>
      EntryAt(v', t) == EmptySlot(t.idx, fs[0], s.dir)
  {
    hide EncodeTable, DecodeTable, EncodeFat, IsLink, FsSignature, LinkChain, Partitioned, Housed, Hung, Header,
         EmptySlot;
    FreeNotHome(v, m, s, e, fs, pieces);
    forall t: Slot | t.dir in m.depth
      ensures EntryAt(v', t) == if t == s then e else EntryAt(v, t)
    {
      assert Linked(v, m, t.dir);
      TableRoundTrip(Table(v, s.dir)[s.idx := e]);
      assert t.dir !in fs;
    }
    forall t: Slot | IsDir(e) && t.dir == fs[0] && t.idx < MAX_DIR_TABLE_ENTRY
      ensures EntryAt(v', t) == EmptySlot(t.idx, fs[0], s.dir)
    {
      TableRoundTrip(EmptyTable(fs[0], s.dir));
      assert v'.disk[fs[0]] == pieces[0];
    }
  }

  /** The volume stays well formed: the new chain is one more chain. */
  lemma StoredWF(v: Volume, m: Meta, v': Volume, s: Slot, e: DirEntry, fs: seq<nat>, pieces: seq<Cluster>)
    requires WF(v, m) && Chainable(v, m, s, e, fs, pieces) && Stored(v, v', s, e, fs, pieces)
    ensures WF(v', CreatedChain(m, s, fs, IsDir(e)))
  {
    hide EncodeTable, DecodeTable, EncodeFat, IsLink, FsSignature, LinkChain, EntryAt, Tree, Partitioned, CreateEntry,
         Created, CreatedChain, Table, Header;
    var e0 := e.(filesize := 0);
    var v1, m1, m' := CreateEntry(v, s, e0, fs[0]), Created(m, s, fs[0], IsDir(e)), CreatedChain(m, s, fs, IsDir(e));
    CreateKeepsWF(v, m, s, e0, fs[0]);
    FreeNotHome(v, m, s, e, fs, pieces);
    ChainPartition(v.fat, m, s, fs, IsDir(e));
    CreatedChainIs(m, s, fs, IsDir(e));
    StoredHeader(v, m, v', s, e, fs, pieces);
    StoredSame(v, m, v', s, e, fs, pieces);
    StoredChains(m, s, fs, IsDir(e));
    forall t {:trigger m'.chains[t]} | t in m1.chains
      ensures if IsDir(EntryAt(v1, t)) then m'.chains[t] == m1.chains[t]
              else EntryAt(v', t).filesize <= |m'.chains[t]| * CLUSTER_SIZE
    {
      StoredSize(v, m, v', s, e, fs, pieces, t);
    }
    TreeFrame(v1, m1, v', m');
  }

  lemma StoredChains(m: Meta, s: Slot, fs: seq<nat>, dir: bool)
    requires fs != []
    ensures var m1, m' := Created(m, s, fs[0], dir), CreatedChain(m, s, fs, dir);
      m'.depth == m1.depth && m'.chains.Keys == m1.chains.Keys
      && (forall t {:trigger m'.chains[t]} | t in m1.chains :: m1.chains[t] <= m'.chains[t])
      && ((forall k :: 0 <= k < |fs| ==> fs[k] !in m.home) ==>
            forall c | c in m1.home :: c in m'.home && m'.home[c] == m1.home[c])
  {
    hide CreatedChain;
    CreatedChainIs(m, s, fs, dir);
    assert fs[0] in fs;
  }

  lemma StoredHeader(v: Volume, m: Meta, v': Volume, s: Slot, e: DirEntry, fs: seq<nat>, pieces: seq<Cluster>)
    requires WF(v, m) && Chainable(v, m, s, e, fs, pieces) && Stored(v, v', s, e, fs, pieces)
    ensures Header(v')
  {
    hide EncodeTable, DecodeTable, EncodeFat, IsLink, FsSignature, LinkChain, EntryAt, Tree, Partitioned, Table;
    FreeNotHome(v, m, s, e, fs, pieces);
    forall c: nat | c < 3
      ensures LinkChain(v.fat, fs)[c] == v.fat[c]
    {
      LinkChainOther(v.fat, fs, c);
    }
    assert 0 !in fs;
  }

  lemma StoredSame(v: Volume, m: Meta, v': Volume, s: Slot, e: DirEntry, fs: seq<nat>, pieces: seq<Cluster>)
    requires WF(v, m) && Chainable(v, m, s, e, fs, pieces) && Stored(v, v', s, e, fs, pieces)
    ensures forall t: Slot :: t.dir in Created(m, s, fs[0], IsDir(e)).depth ==>
      SameButSize(EntryAt(CreateEntry(v, s, e.(filesize := 0), fs[0]), t), EntryAt(v', t))
  {
    hide EncodeTable, DecodeTable, EncodeFat, IsLink, FsSignature, LinkChain, EntryAt, Tree, Partitioned, CreateEntry,
         Table, Header, EmptySlot, Stored;
    FreeNotHome(v, m, s, e, fs, pieces);
    StoredEntries(v, m, v', s, e, fs, pieces);
    CreateEntries(v, m, s, e.(filesize := 0), fs[0]);
    forall t: Slot | t.dir in Created(m, s, fs[0], IsDir(e)).depth
      ensures SameButSize(EntryAt(CreateEntry(v, s, e.(filesize := 0), fs[0]), t), EntryAt(v', t))
    {
      if t.idx >= MAX_DIR_TABLE_ENTRY { OutOfTable(CreateEntry(v, s, e.(filesize := 0), fs[0]), v', t); }
    }
  }

  lemma OutOfTable(v: Volume, v': Volume, t: Slot)
    requires t.idx >= MAX_DIR_TABLE_ENTRY
    ensures EntryAt(v, t) == EntryAt(v', t)
  {
  }

  lemma StoredSize(v: Volume, m: Meta, v': Volume, s: Slot, e: DirEntry, fs: seq<nat>, pieces: seq<Cluster>, t: Slot)
    requires WF(v, m) && Chainable(v, m, s, e, fs, pieces) && Stored(v, v', s, e, fs, pieces)
    requires t in Created(m, s, fs[0], IsDir(e)).chains
    ensures t in CreatedChain(m, s, fs, IsDir(e)).chains
    ensures var v1, m' := CreateEntry(v, s, e.(filesize := 0), fs[0]), CreatedChain(m, s, fs, IsDir(e));
      if IsDir(EntryAt(v1, t)) then m'.chains[t] == Created(m, s, fs[0], IsDir(e)).chains[t]
      else EntryAt(v', t).filesize <= |m'.chains[t]| * CLUSTER_SIZE
  {
    hide EncodeTable, DecodeTable, EncodeFat, IsLink, FsSignature, LinkChain, EntryAt, Partitioned, CreateEntry, Table,
         Header, EmptySlot, Stored, CreatedChain, Linked, Hung;
    CreatedChainIs(m, s, fs, IsDir(e));
    StoredEntries(v, m, v', s, e, fs, pieces);
    CreateEntries(v, m, s, e.(filesize := 0), fs[0]);
    if t == s {
      assert fs == [fs[0]] || |fs| > 1;
      assert s.dir in m.depth;
    } else {
      SlotDir(v, m, t);
      assert Housed(v, m, t);
    }
  }

  /** Every other entry keeps its chain and data. */
  lemma StoredKeeps(v: Volume, m: Meta, v': Volume, s: Slot, e: DirEntry, fs: seq<nat>, pieces: seq<Cluster>, t: Slot)
    requires WF(v, m) && Chainable(v, m, s, e, fs, pieces) && Stored(v, v', s, e, fs, pieces) && t in m.chains
    ensures Kept(v, m, v', CreatedChain(m, s, fs, IsDir(e)), t)
  {
    hide EncodeTable, DecodeTable, EncodeFat, IsLink, FsSignature, LinkChain, EntryAt, Tree, CreateEntry, Table, Header,
         EmptySlot, CreatedChain;
    FreeNotHome(v, m, s, e, fs, pieces);
    CreatedChainIs(m, s, fs, IsDir(e));
    StoredEntries(v, m, v', s, e, fs, pieces);
    SlotDir(v, m, t);
    if !IsDir(EntryAt(v, t)) {
      forall k | 0 <= k < |m.chains[t]|
        ensures 3 <= m.chains[t][k] < CLUSTER_MAP_SIZE && m.chains[t][k] !in fs && m.chains[t][k] != s.dir
      {
        FileCluster(v, m, t, k);
        assert Owns(m, t, k);
      }
    }
  }

  /** The bytes read back through the new chain are the data followed by zeros. */
  lemma StoredBytes(v: Volume, v': Volume, s: Slot, e: DirEntry, fs: seq<nat>, data: seq<char>, x: nat)
    requires Stored(v, v', s, e, fs, seq(|fs|, i requires 0 <= i => Piece(data, i))) && x < |fs| * CLUSTER_SIZE
    ensures ByteAt(v'.disk, fs, x) == if x < |data| then data[x] else NUL
  {
    hide EncodeTable, EncodeFat, LinkChain, Table;
    assert v'.disk[fs[x / CLUSTER_SIZE]] == Piece(data, x / CLUSTER_SIZE);
    assert x == x / CLUSTER_SIZE * CLUSTER_SIZE + x % CLUSTER_SIZE;
  }

  // ---------- write ----------

  /** The entry `write` builds in the slot that held `e0`. */
  function RequestEntry(e0: DirEntry, q: Request, first: nat, size: nat): DirEntry
    requires Named(q) && size < 0x1_0000_0000
  {
    var e := SetCluster(e0.(filesize := size, attribute := if q.buffer_size > 0 then NUL else ATTR_SUBDIRECTORY,
                            user_attribute := UATTR_NOT_EMPTY, name := StrCpy(e0.name, CStr(q.name), 8)), first);
    if q.buffer_size > 0 then e.(ext := q.ext) else e
  }

  lemma RequestEntryReads(e0: DirEntry, q: Request, first: nat, size: nat)
    requires Named(q) && size < 0x1_0000_0000 && first < 0x1_0000
    ensures var e := RequestEntry(e0, q, first, size);
      Used(e) && IsDir(e) == (q.buffer_size == 0) && e.filesize == size && ClusterOf(e) == first && Terminated(e)
      && CStr(e.name) == CStr(q.name) && (q.buffer_size > 0 ==> e.ext == q.ext)
  {
    hide CStr;
    assert CStr(q.name)[..|CStr(q.name)|] == CStr(q.name);
  }

  /** The bytes a request puts on disk: its data, or one fresh directory table. */
  function SizeOf(q: Request): nat { if q.buffer_size == 0 then CLUSTER_SIZE else q.buffer_size }

  function PieceOf(q: Request, first: nat, i: nat): Cluster
    requires q.buffer_size <= |q.buf|
  {
    if q.buffer_size == 0 then EncodeTable(EmptyTable(first, q.parent_cluster_number))
      else Piece(q.buf[..q.buffer_size], i)
  }

  function Pieces(q: Request, fs: seq<nat>): seq<Cluster>
    requires q.buffer_size <= |q.buf|
  {
    seq(|fs|, i requires 0 <= i < |fs| => PieceOf(q, fs[0], i))
  }

  /** A successful `write`: the entry is in the first slot that was unused, and the data in fresh clusters. */
  ghost predicate WroteFile(v0: Volume, m0: Meta, v: Volume, m: Meta, q: Request, s: Slot, fs: seq<nat>) {
    && Named(q) && q.buffer_size <= |q.buf| && SizeOf(q) < 0x1_0000_0000 && |fs| == Clusters(SizeOf(q)) && fs != []
    && s.dir == q.parent_cluster_number && s.idx < MAX_DIR_TABLE_ENTRY && !Used(Table(v0, s.dir)[s.idx])
    && var e := RequestEntry(EntryAt(v0, s), q, fs[0], SizeOf(q));
       Chainable(v0, m0, s, e, fs, Pieces(q, fs)) && Stored(v0, v, s, e, fs, Pieces(q, fs))
       && m == CreatedChain(m0, s, fs, q.buffer_size == 0)
  }

  /** Lines 179-191. */
  method ScanForWrite(dir: DirTable, q: Request) returns (exist: bool, dir_empty_entry: int)
    requires Named(q)
    ensures exist <==> exists i :: 0 <= i < MAX_DIR_TABLE_ENTRY && Clashes(dir[i], q)
    ensures !exist ==>
      if dir_empty_entry == -1 then forall i :: 0 <= i < MAX_DIR_TABLE_ENTRY ==> Used(dir[i])
      else 0 <= dir_empty_entry < MAX_DIR_TABLE_ENTRY && !Used(dir[dir_empty_entry])
           && forall i :: 0 <= i < dir_empty_entry ==> Used(dir[i])
  {
    hide CStr;
    dir_empty_entry := -1;
    for i := 0 to MAX_DIR_TABLE_ENTRY
      invariant forall j :: 0 <= j < i ==> !Clashes(dir[j], q)
      invariant if dir_empty_entry == -1 then forall j :: 0 <= j < i ==> Used(dir[j])
                else 0 <= dir_empty_entry < i && !Used(dir[dir_empty_entry])
                     && forall j :: 0 <= j < dir_empty_entry ==> Used(dir[j])
    {
      if dir_empty_entry == -1 && !Used(dir[i]) {
        dir_empty_entry := i;
      }
      if Used(dir[i]) && CStr(q.name) == CStr(dir[i].name) && (q.buffer_size == 0 || CStr(q.ext) == CStr(dir[i].ext)) {
        assert Clashes(dir[i], q);
        return true, dir_empty_entry;
      }
    }
    return false, dir_empty_entry;
  }

  /** The free clusters that are not in `cs` come behind those that are. */
  ghost predicate Lowest(fat: FatMap, cs: seq<nat>) {
    forall c, k {:trigger fat[c], cs[k]} ::
      0 <= c < CLUSTER_MAP_SIZE && fat[c] == FAT32_FAT_EMPTY_ENTRY && c !in cs && 0 <= k < |cs| ==> cs[k] < c
  }

  /** `cs` are the free clusters before `limit`. */
  ghost predicate FreeBefore(fat: FatMap, cs: seq<nat>, limit: nat) {
    && limit <= CLUSTER_MAP_SIZE && Ascending(cs) && AllFree(fat, cs) && (forall k :: 0 <= k < |cs| ==> cs[k] < limit)
    && forall c :: 0 <= c < limit && fat[c] == FAT32_FAT_EMPTY_ENTRY ==> c in cs
  }

  lemma FreeNext(fat: FatMap, cs: seq<nat>, c: nat)
    requires c < CLUSTER_MAP_SIZE && FreeBefore(fat, cs, c)
    ensures FreeBefore(fat, if fat[c] == FAT32_FAT_EMPTY_ENTRY then cs + [c] else cs, c + 1)
  {
    var ds := cs + [c];
    assert forall k {:trigger ds[k]} :: 0 <= k < |ds| ==> ds[k] == if k < |cs| then cs[k] else c;
    forall d | 0 <= d < c + 1 && fat[d] == FAT32_FAT_EMPTY_ENTRY
      ensures d in if fat[c] == FAT32_FAT_EMPTY_ENTRY then ds else cs
    {
      if d < c { assert d in cs; }
    }
  }

  lemma FreeDone(fat: FatMap, cs: seq<nat>, limit: nat, needed: nat)
    requires FreeBefore(fat, cs, limit) && |cs| <= needed && (limit == CLUSTER_MAP_SIZE || |cs| == needed)
    ensures Ascending(cs) && AllFree(fat, cs) && Lowest(fat, cs) && (|cs| < needed <==> |FreeSet(fat)| < needed)
  {
    AscendingSet(cs);
    forall c | c in Elements(cs)
      ensures c in FreeSet(fat)
    {
      var k :| 0 <= k < |cs| && cs[k] == c;
    }
    assert limit == CLUSTER_MAP_SIZE ==> FreeSet(fat) == Elements(cs);
    SubsetSize(Elements(cs), FreeSet(fat));
  }

  lemma SubsetSize(a: set<nat>, b: set<nat>)
    requires forall c :: c in a ==> c in b
    ensures |a| <= |b|
  {
    assert b == a + (b - a);
  }

  function Elements(cs: seq<nat>): (r: set<nat>)
    ensures forall c :: c in r <==> c in cs
  {
    set c | c in cs
  }

  lemma {:induction false} AscendingSet(cs: seq<nat>)
    requires Ascending(cs)
    ensures |Elements(cs)| == |cs|
    decreases |cs|
  {
    if cs == [] {
      assert Elements(cs) == {};
    } else {
      var n := |cs| - 1;
      AscendingSet(cs[..n]);
      LastElement(cs);
    }
  }

  lemma LastElement(cs: seq<nat>)
    requires cs != [] && Ascending(cs)
    ensures |Elements(cs)| == |Elements(cs[..|cs| - 1])| + 1
  {
    var a, x := cs[..|cs| - 1], cs[|cs| - 1];
    assert cs == a + [x];
    assert x !in a;
    assert Elements(cs) == Elements(a) + {x};
  }

  method Note(free_clusters: array<nat>, free_cluster: nat, cluster: nat, ghost cs: seq<nat>)
    requires free_cluster < free_clusters.Length && free_clusters[..free_cluster] == cs
    modifies free_clusters
    ensures free_clusters[..free_cluster + 1] == cs + [cluster]
  {
    free_clusters[free_cluster] := cluster;
  }

  /** Lines 199-211: the first free clusters, in ascending order. */
  method CollectFree(fs: Driver.Fat32, needed_cluster: nat) returns (free_clusters: array<nat>, free_cluster: nat)
    requires fs.Shape()
    ensures fresh(free_clusters) && free_clusters.Length == needed_cluster && free_cluster <= needed_cluster
    ensures Ascending(free_clusters[..free_cluster]) && AllFree(fs.V().fat, free_clusters[..free_cluster])
    ensures free_cluster < needed_cluster <==> |FreeSet(fs.V().fat)| < needed_cluster
    ensures Lowest(fs.V().fat, free_clusters[..free_cluster])
  {
    ghost var cluster;
    free_clusters := new nat[needed_cluster];
    free_cluster, cluster := FillFree(fs, free_clusters, needed_cluster);
    FreeDone(fs.V().fat, free_clusters[..free_cluster], cluster, needed_cluster);
  }

  /** Lines 203-211. */
  method FillFree(fs: Driver.Fat32, free_clusters: array<nat>, needed_cluster: nat)
    returns (free_cluster: nat, cluster: nat)
    requires fs.Shape() && free_clusters.Length == needed_cluster
    modifies free_clusters
    ensures free_cluster <= needed_cluster && cluster <= CLUSTER_MAP_SIZE && fs.V() == old(fs.V())
    ensures FreeBefore(fs.V().fat, free_clusters[..free_cluster], cluster)
    ensures free_cluster == needed_cluster || cluster == CLUSTER_MAP_SIZE
  {
    ghost var fat, cs: seq<nat> := fs.V().fat, [];
    assert FreeBefore(fat, cs, 0);
    hide FreeBefore;
    free_cluster, cluster := 0, 0;
    while free_cluster < needed_cluster && cluster < CLUSTER_MAP_SIZE
      invariant free_cluster == |cs| <= needed_cluster && cluster <= CLUSTER_MAP_SIZE
      invariant free_clusters[..free_cluster] == cs && FreeBefore(fat, cs, cluster)
      decreases CLUSTER_MAP_SIZE - cluster
    {
      FreeNext(fat, cs, cluster);
      if fs.cluster_map[cluster] == FAT32_FAT_EMPTY_ENTRY {
        Note(free_clusters, free_cluster, cluster, cs);
        free_cluster := free_cluster + 1;
        cs := cs + [cluster];
      }
      cluster := cluster + 1;
    }
  }

  /** Slots not in use stay zeroed. */
  lemma StoredZeroed(v: Volume, m: Meta, v': Volume, s: Slot, e: DirEntry, fs: seq<nat>, pieces: seq<Cluster>)
    requires WF(v, m) && Chainable(v, m, s, e, fs, pieces) && Stored(v, v', s, e, fs, pieces) && Zeroed(v, m)
    ensures Zeroed(v', CreatedChain(m, s, fs, IsDir(e)))
  {
    hide EntryAt, WF, EmptySlot, Stored, EncodeTable;
    StoredEntries(v, m, v', s, e, fs, pieces);
    FreeNotHome(v, m, s, e, fs, pieces);
    CreatedChainIs(m, s, fs, IsDir(e));
    var m' := CreatedChain(m, s, fs, IsDir(e));
    AscendingBound(fs);
    forall t: Slot | t.dir in m'.depth && !Used(EntryAt(v', t))
      ensures EntryAt(v', t) == ZERO_ENTRY
    {
      if t.dir in m.depth {
        assert t != s ==> EntryAt(v', t) == EntryAt(v, t);
      } else if t.idx < MAX_DIR_TABLE_ENTRY {
        EmptyZeroed(t.idx, fs[0], s.dir);
      } else {
        OutsideZero(v', t);
      }
    }
  }

  /** The parent table is full, or there are too few free clusters. */
  ghost predicate NoRoom(v: Volume, q: Request) {
    || (forall i :: 0 <= i < MAX_DIR_TABLE_ENTRY ==> Used(Table(v, q.parent_cluster_number)[i]))
    || |FreeSet(v.fat)| < Clusters(SizeOf(q))
  }

  /** `write`. */
  method Write(fs: Driver.Fat32, q: Request) returns (r: int, ghost s: Slot, ghost cs: seq<nat>)
    requires Named(q) && q.buffer_size <= |q.buf| && q.buffer_size + CLUSTER_SIZE <= 0x1_0000_0000 && fs.Shape()
    requires HonestParent(fs.V(), fs.m, q.parent_cluster_number)
    requires fs.Valid()
    modifies fs`m, fs.disk, fs.cluster_map
    ensures fs.Valid() && r in {0, 1, 2, -1}
    ensures r == 2 <==> !LooksLikeDir(old(fs.V()), q.parent_cluster_number)
    ensures r == 1 <==>
      r != 2 && exists i :: 0 <= i < MAX_DIR_TABLE_ENTRY && Clashes(Table(old(fs.V()), q.parent_cluster_number)[i], q)
    ensures r == -1 <==> (r != 2 && r != 1 && NoRoom(old(fs.V()), q))
    ensures r != 0 ==> fs.V() == old(fs.V()) && fs.m == old(fs.m)
    ensures r == 0 ==> WroteFile(old(fs.V()), old(fs.m), fs.V(), fs.m, q, s, cs)
    ensures r == 0 ==> forall i :: 0 <= i < s.idx ==> Used(Table(old(fs.V()), q.parent_cluster_number)[i])
    ensures r == 0 ==> Lowest(old(fs.V()).fat, cs)
    ensures r == 0 ==> forall t <- old(fs.m).chains :: Kept(old(fs.V()), old(fs.m), fs.V(), fs.m, t)
    ensures old(Zeroed(fs.V(), fs.m)) ==> Zeroed(fs.V(), fs.m)
  {
    hide Lowest;
    hide WF, Zeroed, Kept, EntryAt, Table, LooksLikeDir, Clashes, FreeSet, Chainable, Stored, RequestEntry, Pieces,
         Clusters, Used, IsDir, CreatedChain, Ascending, AllFree;
    ghost var v0, m0 := fs.V(), fs.m;
    s, cs := Slot(0, 0), [];
    var status, dir := GetDirTable(fs, q.parent_cluster_number);
    if status != 0 { return 2, s, cs; }
    var exist, dir_empty_entry := ScanForWrite(dir, q);
    if exist { return 1, s, cs; }
    if dir_empty_entry == -1 { return -1, s, cs; }
    var needed_cluster := Clusters(SizeOf(q));
    SomeCluster(q);
    var free_clusters, free_cluster := CollectFree(fs, needed_cluster);
    if free_cluster < needed_cluster { return -1, s, cs; }
    assert free_clusters[..free_cluster] == free_clusters[..];
    cs := free_clusters[..];
    AscendingBound(cs);
    var slot := Slot(q.parent_cluster_number, dir_empty_entry);
    s := slot;
    var e := RequestEntry(dir[dir_empty_entry], q, free_clusters[0], SizeOf(q));
    RequestEntryReads(dir[dir_empty_entry], q, free_clusters[0], SizeOf(q));
    EmptyEntryFits(v0, m0, slot, q, e, cs, dir);
    FreeNotHome(v0, m0, slot, e, cs, Pieces(q, cs));
    assert forall k :: 0 <= k < free_clusters.Length ==> free_clusters[k] == cs[k];
    StoreClusters(fs, dir, slot, e, free_clusters, q);
    StoredWF(v0, m0, fs.V(), slot, e, cs, Pieces(q, cs));
    fs.m := CreatedChain(m0, slot, cs, q.buffer_size == 0);
    forall t <- m0.chains
      ensures Kept(v0, m0, fs.V(), fs.m, t)
    {
      StoredKeeps(v0, m0, fs.V(), slot, e, cs, Pieces(q, cs), t);
    }
    if Zeroed(v0, m0) { StoredZeroed(v0, m0, fs.V(), slot, e, cs, Pieces(q, cs)); }
    return 0, s, cs;
  }

  lemma AscendingBound(cs: seq<nat>)
    requires Ascending(cs)
    ensures forall i :: 0 <= i < |cs| ==> cs[i] < CLUSTER_MAP_SIZE
  {
  }

  lemma SomeCluster(q: Request)
    ensures Clusters(SizeOf(q)) > 0 && (q.buffer_size == 0 ==> Clusters(SizeOf(q)) == 1)
    ensures SizeOf(q) <= Clusters(SizeOf(q)) * CLUSTER_SIZE
  {
  }

  lemma EmptyEntryFits(v: Volume, m: Meta, s: Slot, q: Request, e: DirEntry, cs: seq<nat>, dir: DirTable)
    requires WF(v, m) && s.dir == q.parent_cluster_number < CLUSTER_MAP_SIZE && s.dir in m.depth
    requires dir == Table(v, s.dir)
    requires s.idx < MAX_DIR_TABLE_ENTRY && !Used(dir[s.idx]) && cs != [] && Ascending(cs) && AllFree(v.fat, cs)
    requires |cs| == Clusters(SizeOf(q)) && q.buffer_size <= |q.buf|
    requires Used(e) && Terminated(e) && ClusterOf(e) == cs[0] && e.filesize == SizeOf(q)
    requires IsDir(e) == (q.buffer_size == 0)
    ensures EntryAt(v, s) == dir[s.idx] && Chainable(v, m, s, e, cs, Pieces(q, cs))
  {
    hide IsLink, DecodeTable, EncodeTable, EmptyTable, CStr, Partitioned, Header, Hung, Housed;
    assert Linked(v, m, s.dir);
    assert EntryAt(v, s) == dir[s.idx];
    SomeCluster(q);
    LinkedUsed(v, m, s.dir);
  }

  lemma LinkedUsed(v: Volume, m: Meta, d: nat)
    requires Linked(v, m, d)
    ensures Used(EntryAt(v, Slot(d, 0))) && Used(EntryAt(v, Slot(d, 1)))
  {
    hide EntryAt, CStr;
  }

  /** After `i` clusters: the first `i` are filled and linked, nothing else has changed. */
  ghost predicate Partly(disk0: seq<Cluster>, fat0: FatMap, disk: seq<Cluster>, fat: FatMap, cs: seq<nat>,
                         pieces: seq<Cluster>, i: nat) {
    && i <= |cs| == |pieces| && |disk| == |disk0| >= CLUSTER_MAP_SIZE && Ascending(cs)
    && (forall k :: 0 <= k < i ==> disk[cs[k]] == pieces[k])
    && (forall c :: 0 <= c < |disk0| && c !in cs[..i] ==> disk[c] == disk0[c])
    && (forall k :: 0 <= k < i ==> fat[cs[k]] == NextOf(cs, k))
    && (forall c :: 0 <= c < CLUSTER_MAP_SIZE && c !in cs[..i] ==> fat[c] == fat0[c])
  }

  function NextOf(cs: seq<nat>, k: nat): nat {
    if k + 1 < |cs| then cs[k + 1] else FAT32_FAT_END_OF_FILE
  }

  lemma PartlyStep(disk0: seq<Cluster>, fat0: FatMap, disk: seq<Cluster>, fat: FatMap, cs: seq<nat>,
                   pieces: seq<Cluster>, i: nat)
    requires i < |cs| && Partly(disk0, fat0, disk, fat, cs, pieces, i)
    ensures cs[i] < CLUSTER_MAP_SIZE && NextOf(cs, i) < 0x1_0000_0000
    ensures Partly(disk0, fat0, disk[cs[i] := pieces[i]], fat[cs[i] := NextOf(cs, i)], cs, pieces, i + 1)
  {
    assert cs[..i + 1] == cs[..i] + [cs[i]];
  }

  lemma PartlyDone(disk0: seq<Cluster>, fat0: FatMap, disk: seq<Cluster>, fat: FatMap, cs: seq<nat>,
                   pieces: seq<Cluster>)
    requires Partly(disk0, fat0, disk, fat, cs, pieces, |cs|)
    ensures fat == LinkChain(fat0, cs)
    ensures forall c :: 0 <= c < |disk0| && c !in cs ==> disk[c] == disk0[c]
  {
    assert cs[..|cs|] == cs;
    forall c: nat | c < CLUSTER_MAP_SIZE
      ensures fat[c] == LinkChain(fat0, cs)[c]
    {
      if c in cs {
        var k :| 0 <= k < |cs| && cs[k] == c;
        LinkChainAt(fat0, cs, k);
      } else {
        LinkChainOther(fat0, cs, c);
      }
    }
  }

  /** Lines 217-257. */
  method StoreClusters(fs: Driver.Fat32, dir: DirTable, s: Slot, e: DirEntry, free_clusters: array<nat>, q: Request)
    requires fs.Shape() && Ascending(free_clusters[..]) && s.dir < CLUSTER_MAP_SIZE && s.idx < MAX_DIR_TABLE_ENTRY
    requires dir == Table(fs.V(), s.dir) && q.buffer_size <= |q.buf| && q.parent_cluster_number == s.dir
    requires free_clusters.Length == Clusters(SizeOf(q)) && FAT_CLUSTER_NUMBER < s.dir
    requires forall k :: 0 <= k < free_clusters.Length ==>
      free_clusters[k] != s.dir && free_clusters[k] > FAT_CLUSTER_NUMBER
    modifies fs.disk, fs.cluster_map
    ensures Stored(old(fs.V()), fs.V(), s, e, free_clusters[..], Pieces(q, free_clusters[..]))
  {
    hide EncodeTable, EncodeFat, EmptyTable, Table, Clusters, Partly, PieceOf;
    ghost var v0, cs := fs.V(), free_clusters[..];
    ghost var pieces := Pieces(q, cs);
    fs.disk[s.dir] := EncodeTable(dir[s.idx := e]);
    ghost var d1, n := fs.disk[..], |cs|;
    SomeCluster(q);
    PartlyStart(d1, v0.fat, cs, pieces);
    for i := 0 to free_clusters.Length
      invariant Partly(d1, v0.fat, fs.disk[..], fs.cluster_map[..], cs, pieces, i)
    {
      PartlyStep(d1, v0.fat, fs.disk[..], fs.cluster_map[..], cs, pieces, i);
      var last := i + 1 == free_clusters.Length;
      var cluster := free_clusters[i];
      var src := Source(q, free_clusters[0], i, last);
      fs.disk[cluster] := src;
      fs.cluster_map[cluster] := if last then FAT32_FAT_END_OF_FILE else free_clusters[i + 1];
    }
    PartlyDone(d1, v0.fat, fs.disk[..], fs.cluster_map[..], cs, pieces);
    ghost var d2 := fs.disk[..];
    fs.disk[FAT_CLUSTER_NUMBER] := EncodeFat(fs.cluster_map[..]);
    PartlyStored(v0, d1, d2, fs.V(), s, e, dir, cs, pieces);
  }

  lemma PartlyStart(disk: seq<Cluster>, fat: FatMap, cs: seq<nat>, pieces: seq<Cluster>)
    requires |disk| >= CLUSTER_MAP_SIZE && Ascending(cs) && |pieces| == |cs|
    ensures Partly(disk, fat, disk, fat, cs, pieces, 0)
  {
  }

  lemma PartlyStored(v0: Volume, disk1: seq<Cluster>, disk2: seq<Cluster>, v: Volume, s: Slot, e: DirEntry,
                     dir: DirTable, cs: seq<nat>, pieces: seq<Cluster>)
    requires s.dir < CLUSTER_MAP_SIZE && s.idx < MAX_DIR_TABLE_ENTRY && FAT_CLUSTER_NUMBER < s.dir
    requires dir == Table(v0, s.dir)
    requires disk1 == v0.disk[s.dir := EncodeTable(dir[s.idx := e])]
    requires Partly(disk1, v0.fat, disk2, v.fat, cs, pieces, |cs|) && v.fat == LinkChain(v0.fat, cs)
    requires v.disk == disk2[FAT_CLUSTER_NUMBER := EncodeFat(v.fat)]
    requires forall k :: 0 <= k < |cs| ==> cs[k] != s.dir && cs[k] > FAT_CLUSTER_NUMBER
    ensures Stored(v0, v, s, e, cs, pieces)
  {
    hide EncodeTable, EncodeFat, Table, LinkChain;
    assert cs[..|cs|] == cs;
    assert s.dir !in cs;
  }

  /** What `src` points at for cluster `i`: the caller's data, a padded copy of its tail, or a fresh table. */
  method Source(q: Request, first: nat, i: nat, last: bool) returns (src: Cluster)
    requires q.buffer_size <= |q.buf| && i < Clusters(SizeOf(q)) && last == (i + 1 == Clusters(SizeOf(q)))
    ensures src == PieceOf(q, first, i)
  {
    hide EncodeTable, EmptyTable;
    if q.buffer_size == 0 {
      return EncodeTable(EmptyTable(first, q.parent_cluster_number));
    }
    var at, remainder := i * CLUSTER_SIZE, SizeOf(q) % CLUSTER_SIZE;
    if last && remainder != 0 {
      src := q.buf[at..at + remainder] + Zeros(CLUSTER_SIZE - remainder);
    } else {
      src := q.buf[at..at + CLUSTER_SIZE];
    }
    assert src == Piece(q.buf[..q.buffer_size], i);
  }

  // ---------- read ----------

  /** First entry that `read` accepts, the table length if none. */
  function FindMatch(t: DirTable, q: Request, i: nat): (r: nat)
    requires i <= MAX_DIR_TABLE_ENTRY
    ensures i <= r <= MAX_DIR_TABLE_ENTRY && (r < MAX_DIR_TABLE_ENTRY ==> Matches(t[r], q))
    ensures forall j :: i <= j < r ==> !Matches(t[j], q)
    decreases MAX_DIR_TABLE_ENTRY - i
  {
    if i == MAX_DIR_TABLE_ENTRY || Matches(t[i], q) then i else FindMatch(t, q, i + 1)
  }

  function ReadSlot(v: Volume, q: Request): Slot
    requires q.parent_cluster_number < CLUSTER_MAP_SIZE
  {
    Slot(q.parent_cluster_number, FindMatch(Table(v, q.parent_cluster_number), q, 0))
  }

  /** What `read` answers. */
  function ReadAnswer(v: Volume, q: Request): int
    requires q.parent_cluster_number < CLUSTER_MAP_SIZE
  {
    var i := ReadSlot(v, q).idx;
    if !LooksLikeDir(v, q.parent_cluster_number) then -1
    else if i == MAX_DIR_TABLE_ENTRY then 2
    else if IsDir(Table(v, q.parent_cluster_number)[i]) then 1
    else if Table(v, q.parent_cluster_number)[i].filesize > q.buffer_size then -1 else 0
  }

  /** The buffer holds all clusters of the file asked for: `read` copies whole clusters. */
  ghost predicate Holds(v: Volume, m: Meta, q: Request, room: nat)
    requires q.parent_cluster_number < CLUSTER_MAP_SIZE
  {
    ReadSlot(v, q) in m.chains ==> |m.chains[ReadSlot(v, q)]| * CLUSTER_SIZE <= room
  }

  /** `read` into `buf`. */
  method Read(fs: Driver.Fat32, q: Request, buf: array<char>) returns (r: int)
    requires Named(q) && fs.Shape()
    requires HonestParent(fs.V(), fs.m, q.parent_cluster_number) && Holds(fs.V(), fs.m, q, buf.Length)
    requires fs.Valid()
    modifies buf
    ensures fs.Valid() && fs.V() == old(fs.V()) && r == ReadAnswer(fs.V(), q)
    ensures r == 0 ==>
      var s := ReadSlot(fs.V(), q);
      s in fs.m.chains && |fs.m.chains[s]| * CLUSTER_SIZE <= buf.Length
      && (forall x :: 0 <= x < |fs.m.chains[s]| * CLUSTER_SIZE ==> buf[x] == ByteAt(fs.V().disk, fs.m.chains[s], x))
      && (forall x :: |fs.m.chains[s]| * CLUSTER_SIZE <= x < buf.Length ==> buf[x] == old(buf[x]))
  {
    hide WF, EntryAt, Table, LooksLikeDir, Matches, FindMatch, IsDir, ClusterOf, ByteAt, HonestParent;
    var status, dir := GetDirTable(fs, q.parent_cluster_number);
    if status != 0 { return -1; }
    HonestDir(fs.V(), fs.m, q.parent_cluster_number);
    var i := ScanForRead(dir, q);
    if i == MAX_DIR_TABLE_ENTRY { return 2; }
    if IsDir(dir[i]) { return 1; }
    if dir[i].filesize > q.buffer_size { return -1; }
    MatchedSlot(fs.V(), fs.m, q.parent_cluster_number, i, q);
    CopyChain(fs, Slot(q.parent_cluster_number, i), ClusterOf(dir[i]), buf);
    return 0;
  }

  lemma HonestDir(v: Volume, m: Meta, c: nat)
    requires c < CLUSTER_MAP_SIZE && HonestParent(v, m, c) && LooksLikeDir(v, c)
    ensures c in m.depth
  {
  }

  method ScanForRead(dir: DirTable, q: Request) returns (i: nat)
    ensures i == FindMatch(dir, q, 0)
  {
    hide CStr;
    i := 0;
    while i < MAX_DIR_TABLE_ENTRY
      invariant i <= MAX_DIR_TABLE_ENTRY && FindMatch(dir, q, 0) == FindMatch(dir, q, i)
    {
      if Used(dir[i]) && CStr(q.name) == CStr(dir[i].name) && CStr(q.ext) == CStr(dir[i].ext) { break; }
      i := i + 1;
    }
  }

  lemma MatchedSlot(v: Volume, m: Meta, d: nat, i: nat, q: Request)
    requires WF(v, m) && d in m.depth && i < MAX_DIR_TABLE_ENTRY
    requires Matches(Table(v, d)[i], q) && !IsDir(Table(v, d)[i])
    ensures EntryAt(v, Slot(d, i)) == Table(v, d)[i] && Slot(d, i) in m.chains
    ensures m.chains[Slot(d, i)] != [] && m.chains[Slot(d, i)][0] == ClusterOf(Table(v, d)[i])
  {
    hide IsLink, DecodeTable, CStr, ClusterOf, Partitioned, Header, Hung;
    assert Linked(v, m, d);
    assert EntryAt(v, Slot(d, i)) == Table(v, d)[i];
    LinkedDirs(v, m, d);
    assert Housed(v, m, Slot(d, i));
  }

  lemma LinkedDirs(v: Volume, m: Meta, d: nat)
    requires Linked(v, m, d)
    ensures IsDir(EntryAt(v, Slot(d, 0))) && IsDir(EntryAt(v, Slot(d, 1)))
  {
    hide EntryAt, CStr;
  }

  /** Lines 122-129: copy the clusters of a chain one after the other. */
  method CopyChain(fs: Driver.Fat32, ghost s: Slot, first: nat, buf: array<char>)
    requires fs.Shape() && s in fs.m.chains && fs.m.chains[s] != [] && first == fs.m.chains[s][0]
    requires |fs.m.chains[s]| * CLUSTER_SIZE <= buf.Length
    requires fs.Valid()
    modifies buf
    ensures forall x :: 0 <= x < |fs.m.chains[s]| * CLUSTER_SIZE ==> buf[x] == ByteAt(fs.V().disk, fs.m.chains[s], x)
    ensures forall x :: |fs.m.chains[s]| * CLUSTER_SIZE <= x < buf.Length ==> buf[x] == old(buf[x])
  {
    hide WF;
    ghost var ch, k, v := fs.m.chains[s], 0, fs.V();
    ChainNext(v, fs.m, s, 0);
    var cluster_number := first;
    var ptr := 0;
    while cluster_number != FAT32_FAT_END_OF_FILE
      invariant 0 <= k <= |ch| && ptr == k * CLUSTER_SIZE && fs.V() == v
      invariant cluster_number == NextOf([0] + ch, k) && (k < |ch| ==> cluster_number < CLUSTER_MAP_SIZE)
      invariant forall x :: 0 <= x < ptr ==> buf[x] == ByteAt(v.disk, ch, x)
      invariant forall x :: ptr <= x < buf.Length ==> buf[x] == old(buf[x])
      decreases |ch| - k
    {
      ChainNext(v, fs.m, s, k);
      var cluster := fs.disk[cluster_number];
      forall x | 0 <= x < CLUSTER_SIZE {
        buf[ptr + x] := cluster[x];
      }
      cluster_number := fs.cluster_map[cluster_number];
      ptr := ptr + CLUSTER_SIZE;
      k := k + 1;
    }
  }

  // ---------- delete ----------

  /** First entry that `delete` takes, the table length if none. */
  function FindDelete(t: DirTable, q: Request, i: nat): (r: nat)
    requires i <= MAX_DIR_TABLE_ENTRY
    ensures i <= r <= MAX_DIR_TABLE_ENTRY && (r < MAX_DIR_TABLE_ENTRY ==> Deletes(t[r], q))
    ensures forall j :: i <= j < r ==> !Deletes(t[j], q)
    decreases MAX_DIR_TABLE_ENTRY - i
  {
    if i == MAX_DIR_TABLE_ENTRY || Deletes(t[i], q) then i else FindDelete(t, q, i + 1)
  }

  function DeleteSlot(v: Volume, q: Request): Slot
    requires q.parent_cluster_number < CLUSTER_MAP_SIZE
  {
    Slot(q.parent_cluster_number, FindDelete(Table(v, q.parent_cluster_number), q, 0))
  }

  predicate Finds(v: Volume, q: Request)
    requires q.parent_cluster_number < CLUSTER_MAP_SIZE
  {
    LooksLikeDir(v, q.parent_cluster_number) && DeleteSlot(v, q).idx < MAX_DIR_TABLE_ENTRY
  }

  method ScanForDelete(dir: DirTable, q: Request) returns (i: nat)
    ensures i == FindDelete(dir, q, 0)
  {
    hide CStr;
    i := 0;
    while i < MAX_DIR_TABLE_ENTRY
      invariant i <= MAX_DIR_TABLE_ENTRY && FindDelete(dir, q, 0) == FindDelete(dir, q, i)
    {
      if Used(dir[i]) && CStr(q.name) == CStr(dir[i].name)
        && (IsDir(dir[i]) || CStr(q.ext) == CStr(dir[i].ext)) { break; }
      i := i + 1;
    }
  }

  lemma DeletedEntry(v: Volume, m: Meta, d: nat, i: nat, q: Request)
    requires WF(v, m) && d in m.depth && i < MAX_DIR_TABLE_ENTRY && Deletes(Table(v, d)[i], q)
    requires CStr(q.name) != "." && CStr(q.name) != ".."
    ensures EntryAt(v, Slot(d, i)) == Table(v, d)[i] && Slot(d, i) in m.chains
  {
    hide DecodeTable, CStr, ClusterOf, Partitioned, Header, Hung, Housed;
    assert Linked(v, m, d);
    assert EntryAt(v, Slot(d, i)) == Table(v, d)[i];
  }

  /** `delete`. The names "." and ".." would match the directory's own links. */
  method Delete(fs: Driver.Fat32, q: Request) returns (r: int)
    requires Named(q) && CStr(q.name) != "." && CStr(q.name) != ".." && fs.Shape()
    requires HonestParent(fs.V(), fs.m, q.parent_cluster_number)
    requires fs.Valid()
    modifies fs`m, fs.disk, fs.cluster_map
    ensures fs.Valid() && (r == 0 || r == -1 || r == 2)
    ensures r != 0 ==> fs.V() == old(fs.V()) && fs.m == old(fs.m)
    ensures r == -1 <==> !Finds(old(fs.V()), q)
    ensures r == 0 <==> (Finds(old(fs.V()), q) && Removable(old(fs.V()), old(fs.m), DeleteSlot(old(fs.V()), q)))
    ensures r == 0 ==> DeletedSlot(old(fs.V()), old(fs.m), fs.V(), fs.m, DeleteSlot(old(fs.V()), q))
    ensures old(Zeroed(fs.V(), fs.m)) ==> Zeroed(fs.V(), fs.m)
  {
    hide WF, Zeroed, EntryAt, Table, LooksLikeDir, Deletes, FindDelete, IsDir, ClusterOf, HonestParent, Removable,
         DeletedSlot, CountUsed, CStr;
    ghost var v, m := fs.V(), fs.m;
    var status, dir := GetDirTable(fs, q.parent_cluster_number);
    if status != 0 { return -1; }
    HonestDir(v, m, q.parent_cluster_number);
    var i := ScanForDelete(dir, q);
    if i == MAX_DIR_TABLE_ENTRY { return -1; }
    var s := Slot(q.parent_cluster_number, i);
    DeletedEntry(v, m, q.parent_cluster_number, i, q);
    SlotDir(v, m, s);
    Driver.Fat32.EntryCluster(v, m, s);
    if IsDir(dir[i]) {
      var count := fs.GetEntryCount(dir[i]);
      if count != 0 {
        Driver.Fat32.NotRemovable(v, m, s);
        return 2;
      }
    }
    Driver.Fat32.EmptyRemovable(v, m, s);
    RemoveKeepsWF(v, m, s);
    FreeEntry(fs, s, dir[i]);
    var dir' := dir[i := ZERO_ENTRY];
    FinishDelete(fs, dir', s, v, m);
    if Zeroed(v, m) { DeletedZeroed(v, m, fs.V(), fs.m, s); }
    return 0;
  }

  /** Lines 288-304: a file's whole chain, a directory's one cluster. */
  method FreeEntry(fs: Driver.Fat32, ghost s: Slot, e: DirEntry)
    requires fs.Shape() && s in fs.m.chains && fs.m.chains[s] != []
    requires ClusterOf(e) == fs.m.chains[s][0] < CLUSTER_MAP_SIZE && e == EntryAt(fs.V(), s)
    requires fs.Valid()
    modifies fs.cluster_map
    ensures fs.cluster_map[..] == FreeCells(old(fs.V()).fat, fs.m.chains[s])
  {
    hide WF, EntryAt, ClusterOf, IsDir;
    if !IsDir(e) {
      fs.FreeChain(ClusterOf(e), s);
    } else {
      ChildDir(fs.V(), fs.m, s);
      fs.cluster_map[ClusterOf(e)] := FAT32_FAT_EMPTY_ENTRY;
    }
  }

  /** Lines 306-309. */
  method FinishDelete(fs: Driver.Fat32, dir: DirTable, s: Slot, ghost v: Volume, ghost m: Meta)
    requires fs.Shape() && s in m.chains && 2 <= s.dir < CLUSTER_MAP_SIZE && s.idx < MAX_DIR_TABLE_ENTRY
    requires dir == Table(v, s.dir)[s.idx := ZERO_ENTRY] && fs.m == m
    requires fs.disk[..] == v.disk && fs.cluster_map[..] == FreeCells(v.fat, m.chains[s])
    requires WF(RemoveEntry(v, s, m.chains[s]), Removed(m, s)) && WF(v, m) && Removable(v, m, s)
    modifies fs`m, fs.disk
    ensures DeletedSlot(v, m, fs.V(), fs.m, s) && fs.Valid()
  {
    hide WF, EncodeTable, EncodeFat, Table, Removable;
    fs.disk[s.dir] := EncodeTable(dir);
    fs.disk[FAT_CLUSTER_NUMBER] := EncodeFat(fs.cluster_map[..]);
    assert fs.V() == RemoveEntry(v, s, m.chains[s]);
    fs.m := Removed(m, s);
  }

  // ---------- round trips ----------

  /** In the table after a write, the new entry is the only one the request matches. */
  lemma WrittenMatch(v0: Volume, m0: Meta, v: Volume, m: Meta, q: Request, s: Slot, cs: seq<nat>)
    requires WF(v0, m0) && WroteFile(v0, m0, v, m, q, s, cs) && q.buffer_size > 0
    requires forall i :: 0 <= i < MAX_DIR_TABLE_ENTRY ==> !Clashes(Table(v0, q.parent_cluster_number)[i], q)
    ensures s.dir == q.parent_cluster_number < CLUSTER_MAP_SIZE && s.idx < MAX_DIR_TABLE_ENTRY
    ensures Table(v, s.dir) == Table(v0, s.dir)[s.idx := RequestEntry(EntryAt(v0, s), q, cs[0], SizeOf(q))]
    ensures ReadSlot(v, q) == s && !IsDir(Table(v, s.dir)[s.idx]) && Table(v, s.dir)[s.idx].filesize == q.buffer_size
  {
    hide EncodeTable, DecodeTable, EncodeFat, IsLink, CStr, WF, LinkChain, RequestEntry;
    var e := RequestEntry(EntryAt(v0, s), q, cs[0], SizeOf(q));
    RequestEntryReads(EntryAt(v0, s), q, cs[0], SizeOf(q));
    TableRoundTrip(Table(v0, s.dir)[s.idx := e]);
    assert Matches(Table(v, s.dir)[s.idx], q);
    forall i | 0 <= i < s.idx
      ensures !Matches(Table(v, s.dir)[i], q)
    {
      assert !Clashes(Table(v0, s.dir)[i], q);
    }
  }

  /** A successful write reads back as exactly the bytes written, the last cluster padded with zeros. */
  method WriteThenRead(fs: Driver.Fat32, q: Request, buf: array<char>) returns (w: int, r: int)
    requires Named(q) && 0 < q.buffer_size <= |q.buf| && q.buffer_size + CLUSTER_SIZE <= 0x1_0000_0000 && fs.Shape()
    requires buf.Length >= Clusters(q.buffer_size) * CLUSTER_SIZE
    requires HonestParent(fs.V(), fs.m, q.parent_cluster_number)
    requires fs.Valid()
    modifies fs`m, fs.disk, fs.cluster_map, buf
    ensures fs.Valid()
    ensures w == 0 ==>
      r == 0 && buf[..q.buffer_size] == q.buf[..q.buffer_size]
      && forall x :: q.buffer_size <= x < Clusters(q.buffer_size) * CLUSTER_SIZE ==> buf[x] == NUL
  {
    hide WF, LooksLikeDir, FindMatch, WroteFile, Clashes, EntryAt, Table, IsDir, ByteAt, HonestParent, Clusters, NoRoom;
    ghost var v0, m0 := fs.V(), fs.m;
    ghost var s, cs;
    w, s, cs := Write(fs, q);
    r := -1;
    if w != 0 { return; }
    WrittenMatch(v0, m0, fs.V(), fs.m, q, s, cs);
    WrittenChain(v0, m0, fs.V(), fs.m, q, s, cs);
    ghost var chain := fs.m.chains[s];
    r := Read(fs, q, buf);
    forall x | 0 <= x < |cs| * CLUSTER_SIZE
      ensures buf[x] == if x < q.buffer_size then q.buf[..q.buffer_size][x] else NUL
    {
      WrittenByte(v0, m0, fs.V(), fs.m, q, s, cs, x);
    }
    ClustersFit(q.buffer_size, |cs|);
  }

  lemma WrittenChain(v0: Volume, m0: Meta, v: Volume, m: Meta, q: Request, s: Slot, cs: seq<nat>)
    requires WF(v0, m0) && WF(v, m) && WroteFile(v0, m0, v, m, q, s, cs) && q.buffer_size > 0
    ensures s.dir == q.parent_cluster_number && s in m.chains && m.chains[s] == cs && |cs| == Clusters(q.buffer_size)
    ensures s.dir < CLUSTER_MAP_SIZE && LooksLikeDir(v, s.dir) && HonestParent(v, m, s.dir)
  {
    hide IsLink, CStr, WF, LinkChain, RequestEntry, CreatedChain, LooksLikeDir, EntryAt, PieceOf, EncodeTable;
    CreatedChainIs(m0, s, cs, false);
    FreeNotHome(v0, m0, s, RequestEntry(EntryAt(v0, s), q, cs[0], SizeOf(q)), cs, Pieces(q, cs));
    ChainableDir(v0, m0, s, RequestEntry(EntryAt(v0, s), q, cs[0], SizeOf(q)), cs, Pieces(q, cs));
    DirLooksLikeDir(v, m, s.dir);
  }

  lemma WrittenByte(v0: Volume, m0: Meta, v: Volume, m: Meta, q: Request, s: Slot, cs: seq<nat>, x: nat)
    requires x < |cs| * CLUSTER_SIZE && 0 < q.buffer_size <= |q.buf|
    requires WroteFile(v0, m0, v, m, q, s, cs)
    ensures ByteAt(v.disk, cs, x) == if x < q.buffer_size then q.buf[..q.buffer_size][x] else NUL
  {
    hide IsLink, CStr, WF, LinkChain, RequestEntry, CreatedChain, EntryAt, Piece, EncodeTable, Chainable, Stored,
         ByteAt;
    assert Pieces(q, cs) == seq(|cs|, i requires 0 <= i => Piece(q.buf[..q.buffer_size], i));
    StoredBytes(v0, v, s, RequestEntry(EntryAt(v0, s), q, cs[0], SizeOf(q)), cs, q.buf[..q.buffer_size], x);
  }

  lemma ChainableDir(v: Volume, m: Meta, s: Slot, e: DirEntry, fs: seq<nat>, pieces: seq<Cluster>)
    requires Chainable(v, m, s, e, fs, pieces)
    ensures s.dir in m.depth
  {
    hide EntryAt, ClusterOf;
  }

  /** Whether `delete` will take the entry just written: no directory of that name may come before it,
      because extensions are not compared on directories. */
  ghost predicate NoEarlierDir(t: DirTable, q: Request, i: nat)
    requires i <= MAX_DIR_TABLE_ENTRY
  {
    forall j :: 0 <= j < i ==> !(Used(t[j]) && IsDir(t[j]) && CStr(q.name) == CStr(t[j].name))
  }

  lemma WrittenDelete(v0: Volume, m0: Meta, v: Volume, m: Meta, q: Request, s: Slot, cs: seq<nat>)
    requires WF(v0, m0) && WroteFile(v0, m0, v, m, q, s, cs) && q.buffer_size > 0
    requires forall i :: 0 <= i < MAX_DIR_TABLE_ENTRY ==> !Clashes(Table(v0, q.parent_cluster_number)[i], q)
    ensures s.dir < CLUSTER_MAP_SIZE && s.idx < MAX_DIR_TABLE_ENTRY
    ensures DeleteSlot(v, q) == s <==> NoEarlierDir(Table(v0, s.dir), q, s.idx)
  {
    hide EncodeTable, DecodeTable, EncodeFat, IsLink, CStr, WF, LinkChain, RequestEntry, Table, EntryAt;
    WrittenMatch(v0, m0, v, m, q, s, cs);
    var t0, t := Table(v0, s.dir), Table(v, s.dir);
    assert Matches(t[s.idx], q) && Deletes(t[s.idx], q);
    forall i | 0 <= i < s.idx
      ensures Deletes(t[i], q) <==> Used(t0[i]) && IsDir(t0[i]) && CStr(q.name) == CStr(t0[i].name)
    {
      assert !Clashes(t0[i], q) && t[i] == t0[i];
    }
  }

  /** The description of the volume, and the whole allocation table, come back. */
  lemma DeleteUndoes(v0: Volume, m0: Meta, v1: Volume, m1: Meta, v: Volume, m: Meta, q: Request, s: Slot, cs: seq<nat>)
    requires WF(v0, m0) && WF(v1, m1) && WroteFile(v0, m0, v1, m1, q, s, cs) && q.buffer_size > 0
    requires DeletedSlot(v1, m1, v, m, s)
    ensures v.fat == v0.fat && m == m0
    ensures s.dir < CLUSTER_MAP_SIZE && Table(v, s.dir) == Table(v0, s.dir)[s.idx := ZERO_ENTRY]
  {
    hide EncodeTable, EncodeFat, LinkChain, RequestEntry, CreatedChain, EntryAt, WF, PieceOf, Removable, Chainable;
    var e := RequestEntry(EntryAt(v0, s), q, cs[0], SizeOf(q));
    CreatedChainIs(m0, s, cs, false);
    RequestEntryReads(EntryAt(v0, s), q, cs[0], SizeOf(q));
    FreeNotHome(v0, m0, s, e, cs, Pieces(q, cs));
    ChainableFree(v0, m0, s, e, cs, Pieces(q, cs));
    RelinkFree(v0.fat, cs);
    UndoneMeta(m0, m1, m, s, cs);
    TableRoundTrip(Table(v0, s.dir)[s.idx := e]);
    TableRoundTrip(Table(v1, s.dir)[s.idx := ZERO_ENTRY]);
    assert Table(v1, s.dir) == Table(v0, s.dir)[s.idx := e];
  }

  lemma ChainableFree(v: Volume, m: Meta, s: Slot, e: DirEntry, fs: seq<nat>, pieces: seq<Cluster>)
    requires Chainable(v, m, s, e, fs, pieces)
    ensures Ascending(fs) && AllFree(v.fat, fs)
  {
    hide EntryAt, ClusterOf;
  }

  /** Freeing a chain just linked from free cells gives the table back. */
  lemma RelinkFree(fat: FatMap, cs: seq<nat>)
    requires Ascending(cs) && AllFree(fat, cs)
    ensures FreeCells(LinkChain(fat, cs), cs) == fat
  {
    hide LinkChain;
    forall c: nat | c < CLUSTER_MAP_SIZE
      ensures FreeCells(LinkChain(fat, cs), cs)[c] == fat[c]
    {
      if c in cs {
        var k :| 0 <= k < |cs| && cs[k] == c;
      } else {
        LinkChainOther(fat, cs, c);
      }
    }
  }

  lemma UndoneMeta(m0: Meta, m1: Meta, m: Meta, s: Slot, cs: seq<nat>)
    requires cs != [] && s !in m0.chains && m1 == CreatedChain(m0, s, cs, false)
    requires forall k :: 0 <= k < |cs| ==> cs[k] !in m0.home && cs[k] !in m0.depth
    requires s in m1.chains && m == Removed(m1, s)
    ensures m == m0
  {
    hide CreatedChain;
    CreatedChainIs(m0, s, cs, false);
    var dead := set k | 0 <= k < |m1.chains[s]| :: m1.chains[s][k];
    assert forall c :: c in dead <==> c in cs;
    assert m.chains == m0.chains;
    assert m.home == m0.home;
    assert m.depth == m0.depth;
  }

  /** Writing a file and deleting it restores the allocation table and every chain exactly, and the parent
      table exactly when the slot used held only zeros before, as every unused slot of a volume formatted by the
      kernel does. */
  method WriteThenDelete(fs: Driver.Fat32, q: Request) returns (w: int, r: int, ghost s: Slot)
    requires Named(q) && 0 < q.buffer_size <= |q.buf| && q.buffer_size + CLUSTER_SIZE <= 0x1_0000_0000 && fs.Shape()
    requires CStr(q.name) != "." && CStr(q.name) != ".."
    requires NoEarlierDir(Table(fs.V(), q.parent_cluster_number), q, MAX_DIR_TABLE_ENTRY)
    requires HonestParent(fs.V(), fs.m, q.parent_cluster_number)
    requires fs.Valid()
    modifies fs`m, fs.disk, fs.cluster_map
    ensures fs.Valid()
    ensures w == 0 ==>
      r == 0 && fs.cluster_map[..] == old(fs.cluster_map[..]) && fs.m == old(fs.m) && s.idx < MAX_DIR_TABLE_ENTRY
      && (Table(fs.V(), q.parent_cluster_number) == Table(old(fs.V()), q.parent_cluster_number)
          <==> Table(old(fs.V()), q.parent_cluster_number)[s.idx] == ZERO_ENTRY)
    ensures w == 0 && old(Zeroed(fs.V(), fs.m)) ==>
      Table(fs.V(), q.parent_cluster_number) == Table(old(fs.V()), q.parent_cluster_number)
  {
    hide WF, Zeroed, LooksLikeDir, FindDelete, FindMatch, WroteFile, Clashes, EntryAt, Table, IsDir, HonestParent,
         NoRoom, NoEarlierDir, DeletedSlot, Removable, CStr;
    ghost var v0, m0 := fs.V(), fs.m;
    ghost var cs;
    w, s, cs := Write(fs, q);
    r := -1;
    if w != 0 { return; }
    ghost var v1, m1 := fs.V(), fs.m;
    WrittenMatch(v0, m0, v1, m1, q, s, cs);
    WrittenChain(v0, m0, v1, m1, q, s, cs);
    WrittenDelete(v0, m0, v1, m1, q, s, cs);
    FewerEarlier(Table(v0, s.dir), q, s.idx);
    WrittenRemovable(v0, m0, v1, m1, q, s, cs);
    r := Delete(fs, q);
    DeleteUndoes(v0, m0, v1, m1, fs.V(), fs.m, q, s, cs);
    SameUnlessZero(Table(v0, s.dir), s.idx);
    if Zeroed(v0, m0) { WroteUnused(v0, m0, v1, m1, q, s, cs); }
  }

  lemma WroteUnused(v0: Volume, m0: Meta, v: Volume, m: Meta, q: Request, s: Slot, cs: seq<nat>)
    requires WF(v0, m0) && WroteFile(v0, m0, v, m, q, s, cs) && Zeroed(v0, m0)
    ensures s.idx < MAX_DIR_TABLE_ENTRY && Table(v0, s.dir)[s.idx] == ZERO_ENTRY
  {
    hide WF, Stored, RequestEntry, Pieces, Clusters, Used;
    assert EntryAt(v0, s) == Table(v0, s.dir)[s.idx];
  }

  lemma FewerEarlier(t: DirTable, q: Request, i: nat)
    requires NoEarlierDir(t, q, MAX_DIR_TABLE_ENTRY) && i <= MAX_DIR_TABLE_ENTRY
    ensures NoEarlierDir(t, q, i)
  {
    hide CStr;
  }

  lemma SameUnlessZero(t: DirTable, i: nat)
    requires i < MAX_DIR_TABLE_ENTRY
    ensures t[i := ZERO_ENTRY] == t <==> t[i] == ZERO_ENTRY
  {
    assert t[i := ZERO_ENTRY][i] == ZERO_ENTRY;
    assert t[i := t[i]] == t;
  }

  lemma WrittenRemovable(v0: Volume, m0: Meta, v: Volume, m: Meta, q: Request, s: Slot, cs: seq<nat>)
    requires WF(v0, m0) && WF(v, m) && WroteFile(v0, m0, v, m, q, s, cs) && q.buffer_size > 0
    requires s.dir < |v.disk| && s.idx < MAX_DIR_TABLE_ENTRY && !IsDir(Table(v, s.dir)[s.idx])
    ensures Removable(v, m, s)
  {
    hide IsLink, CStr, WF, LinkChain, RequestEntry, CreatedChain, Piece, EncodeTable, EmptyTable, IsDir, Chainable,
         Stored, DecodeTable;
    CreatedChainIs(m0, s, cs, false);
    Driver.Fat32.EmptyRemovable(v, m, s);
  }
}
