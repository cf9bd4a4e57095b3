/** Two runs of the driver on a freshly formatted disk in which it does not do what it is meant to. */
module FatShortcomings {
  import opened FatLayout
  import opened FatVolume
  import opened FatTree
  import opened FatFile
  import opened FatNames
  import opened FatSpec
  import opened FatMisplaced
  import opened CStrings
  import Driver = Fat32Driver

  /** With at most one entry of one cluster there is room in the root. */
  lemma RootHasRoom(v: Volume, m: Meta, s: Slot)
    requires WF(v, m) && m.chains.Keys <= {s} && (s in m.chains ==> |m.chains[s]| == 1)
    ensures HasRoom(v, [])
  {
    hide EntryAt, IsLink, Linked, Hung, Housed, Header, IsChain;
    RootSlots(v, m, s);
    var c := if 3 in m.home then 4 else 3;
    assert 3 in m.home ==> Owned(m, 3);
    assert 4 in m.home ==> Owned(m, 4);
    assert v.fat[c] == FAT32_FAT_EMPTY_ENTRY;
  }

  lemma RootSlots(v: Volume, m: Meta, s: Slot)
    requires WF(v, m) && m.chains.Keys <= {s}
    ensures Tokens([], '/') == [] && TargetDir(v, []) == Some(ROOT_CLUSTER_NUMBER)
    ensures exists i :: RESERVED_ENTRY <= i < MAX_DIR_TABLE_ENTRY && !Used(Table(v, ROOT_CLUSTER_NUMBER)[i])
  {
    hide EntryAt, IsLink, Linked, Hung, Housed, Header, Partitioned, Table;
    var i := if s.idx == 2 then 3 else 2;
    Driver.Fat32.TableAt(v, m, ROOT_CLUSTER_NUMBER);
    assert Slot(ROOT_CLUSTER_NUMBER, i) !in m.chains;
    assert !Used(Table(v, ROOT_CLUSTER_NUMBER)[i]);
  }

  lemma NoSlots(v: Volume, m: Meta)
    requires WF(v, m) && Addressable(v, m) && Abs(v, m) == map[]
    ensures m.chains.Keys == {}
  {
    hide WF, Addressable, Abs, PathOf, ObjOf;
    forall s
      ensures s !in m.chains
    {
      if s in m.chains { SlotListed(v, m, s); }
    }
  }

  lemma SlotListed(v: Volume, m: Meta, s: Slot)
    requires WF(v, m) && Addressable(v, m) && s in m.chains
    ensures PathOf(v, m, s) in Abs(v, m)
  {
    hide WF, Addressable, Abs, PathOf, ObjOf;
    AbsAt(v, m);
  }

  lemma PartsOfAT()
    ensures var path := "/a.t";
      ParentPart(path) == [] && NamePart(path) == "a.t" && Tokens(NamePart(path), '.') == ["a", "t"]
      && Stem(NamePart(path)) == "a" && Extension(NamePart(path)) == "t" && NUL !in path
      && FilePath(path) == ["a.t"] && Tokens([], '/') == []
  {
    hide Tokens, LastSlash;
    SlashFirst("/a.t");
    assert "/a.t"[1..] == "a.t";
    TokensOfAT();
    TokensEmpty('/');
    assert Joined("a", "t") == "a.t";
  }

  lemma SlashFirst(path: seq<char>)
    requires path != [] && path[0] == '/' && '/' !in path[1..]
    ensures LastSlash(path) == 0 && ParentPart(path) == []
  {
    assert forall j :: 0 < j < |path| ==> path[j] == path[1..][j - 1];
  }

  lemma TokensOfAT()
    ensures Tokens("a.t", '.') == ["a", "t"]
  {
    hide Tokens;
    TokensHead("a", ".t", '.');
    TokensHead("t", [], '.');
    TokensDrop(".t", '.');
    TokensEmpty('.');
    assert "a" + ".t" == "a.t" && ".t"[1..] == "t" && "t" + [] == "t";
  }

  /** mkfile of the same path twice, with an extension: both succeed, and the directory holds the name twice. */
  method DuplicateFile(fs: Driver.Fat32) returns (first: int, second: int)
    requires fs.Shape() && fs.disk[0][..BLOCK_SIZE] != FsSignature()
    modifies fs`m, fs.disk, fs.cluster_map
    ensures first == 0 && second == 0 && fs.Valid() && !Addressable(fs.V(), fs.m)
  {
    hide WF, Addressable, Abs, Tokens, CreatedAs, MayCreate, HasRoom, FsSignature, LastSlash, Walk, FullName;
    PartsOfAT();
    ghost var s;
    fs.Initialize();
    NoSlots(fs.V(), fs.m);
    RootHasRoom(fs.V(), fs.m, Slot(0, 0));
    StemUnlistedPasses(fs.V(), fs.m, [], "a");
    ghost var v0, m0 := fs.V(), fs.m;
    first, s := fs.MkFile("/a.t");
    MkFileAbs(v0, m0, fs.V(), fs.m, s, "/a.t");
    OneSlot(v0, m0, fs.V(), fs.m, s);
    RootHasRoom(fs.V(), fs.m, s);
    ghost var v1, m1 := fs.V(), fs.m;
    assert Abs(v1, m1) == map[["a.t"] := File([])];
    assert ([] + ["a"])[0] != ["a.t"][0];
    DuplicateEscapes(v1, m1, "/a.t");
    second, s := fs.MkFile("/a.t");
    assert MadeFile(v1, m1, fs.V(), fs.m, s, "/a.t");
  }

  lemma OneSlot(v0: Volume, m0: Meta, v: Volume, m: Meta, s: Slot)
    requires CreatedAs(v0, m0, v, m, s, [], "a", "t", true) && m0.chains.Keys == {}
    ensures m.chains.Keys == {s} && |m.chains[s]| == 1
  {
    hide WF, Creatable, CreateEntry, NewEntry;
  }

  // ---------- a name with two dots ----------

  lemma PartsOfATT()
    ensures var path := "/a.t.t";
      ParentPart(path) == [] && NamePart(path) == "a.t.t" && Tokens(NamePart(path), '.') == ["a", "t", "t"]
      && Stem(NamePart(path)) == "a" && FilePath(path) == ["a.t"] && NUL !in path && Tokens([], '/') == []
      && !OneExtension(NamePart(path)) && Tokens(path, '/') == ["a.t.t"]
  {
    hide Tokens, LastSlash;
    SlashFirst("/a.t.t");
    assert "/a.t.t"[1..] == "a.t.t" && "a.t.t" + [] == "a.t.t";
    TokensOfATT();
    TokensEmpty('/');
    TokensDrop("/a.t.t", '/');
    TokensHead("a.t.t", [], '/');
    assert Joined("a", "t") == "a.t";
    SpanAt("a", ".t.t", '.');
    assert "a" + ".t.t" == "a.t.t" && "a.t.t"[2..] == "t.t" && "t.t"[1] == '.';
  }

  lemma TokensOfATT()
    ensures Tokens("a.t.t", '.') == ["a", "t", "t"]
  {
    hide Tokens;
    TokensHead("a", ".t.t", '.');
    TokensDrop(".t.t", '.');
    TokensHead("t", ".t", '.');
    TokensDrop(".t", '.');
    TokensHead("t", [], '.');
    TokensEmpty('.');
    assert "a" + ".t.t" == "a.t.t" && ".t.t"[1..] == "t.t" && "t" + ".t" == "t.t" && ".t"[1..] == "t";
    assert "t" + [] == "t" && ["t"] + ["t"] == ["t", "t"] && ["a"] + ["t", "t"] == ["a", "t", "t"];
  }

  /** mkfile of a name with two dots: it succeeds, and the file is under another name. */
  method TwoDots(fs: Driver.Fat32) returns (r: int)
    requires fs.Shape() && fs.disk[0][..BLOCK_SIZE] != FsSignature()
    modifies fs`m, fs.disk, fs.cluster_map
    ensures r == 0 && fs.Valid() && Abs(fs.V(), fs.m) == map[["a.t"] := File([])]
    ensures Tokens("/a.t.t", '/') == ["a.t.t"] && ["a.t.t"] !in Abs(fs.V(), fs.m)
  {
    hide WF, Addressable, Abs, Tokens, CreatedAs, MayCreate, HasRoom, FsSignature, LastSlash, Walk, FullName,
         OneExtension, EntryAt;
    PartsOfATT();
    fs.Initialize();
    NoSlots(fs.V(), fs.m);
    RootHasRoom(fs.V(), fs.m, Slot(0, 0));
    StemUnlistedPasses(fs.V(), fs.m, [], "a");
    ghost var v0, m0, s := fs.V(), fs.m, Slot(0, 0);
    r, s := fs.MkFile("/a.t.t");
    MkFileAbs(v0, m0, fs.V(), fs.m, s, "/a.t.t");
    assert ["a.t.t"][0] != ["a.t"][0];
  }

  // ---------- writing after reading ----------

  const FILE_SIZE: nat := 2 * CLUSTER_SIZE

  /** Files of two clusters full of the same character. */
  ghost predicate TwoClusters(v: Volume, m: Meta, s: Slot) {
    && WF(v, m) && Addressable(v, m) && m.chains.Keys == {s} && |m.chains[s]| == 2
    && !IsDir(EntryAt(v, s)) && PathOf(v, m, s) == ["a.t"]
    && Bytes(v, m, s) == seq(FILE_SIZE, _ => 'x')
  }

  lemma OneExtensionOfAT()
    ensures OneExtension("a.t") && Tokens("/a.t", '/') == ["a.t"]
  {
    SpanAt("a", ".t", '.');
    assert "a" + ".t" == "a.t" && "a.t"[2..] == "t";
    TokensDrop("/a.t", '/');
    TokensHead("a.t", [], '/');
    TokensEmpty('/');
    assert "/a.t"[1..] == "a.t" && "a.t" + [] == "a.t";
  }

  /** mkfile on a freshly formatted disk, and where the file is. */
  method MakeFirst(fs: Driver.Fat32) returns (ghost s: Slot)
    requires fs.Shape() && fs.disk[0][..BLOCK_SIZE] != FsSignature()
    modifies fs`m, fs.disk, fs.cluster_map
    ensures fs.Valid() && Addressable(fs.V(), fs.m) && fs.m.chains.Keys == {s} && |fs.m.chains[s]| == 1
    ensures HasRoom(fs.V(), [])
    ensures Lookup(fs.V(), ["a.t"]) == Some(s) && Abs(fs.V(), fs.m) == map[["a.t"] := File([])]
    ensures ObjOf(fs.V(), fs.m, s) == File([])
  {
    hide WF, Addressable, Abs, Tokens, CreatedAs, MayCreate, HasRoom, FsSignature, LastSlash, Walk, FullName,
         OneExtension, EntryAt;
    PartsOfAT();
    OneExtensionOfAT();
    fs.Initialize();
    NoSlots(fs.V(), fs.m);
    RootHasRoom(fs.V(), fs.m, Slot(0, 0));
    StemUnlistedPasses(fs.V(), fs.m, [], "a");
    ghost var v0, m0 := fs.V(), fs.m;
    var r;
    r, s := fs.MkFile("/a.t");
    MkFileAbs(v0, m0, fs.V(), fs.m, s, "/a.t");
    CreatedFacts(v0, m0, fs.V(), fs.m, s, [], "a", "t", true);
    OneSlot(v0, m0, fs.V(), fs.m, s);
    RootHasRoom(fs.V(), fs.m, s);
  }

  lemma FreeCluster(v: Volume)
    requires HasRoom(v, [])
    ensures |FreeSet(v.fat)| >= 1
  {
    hide Table, TargetDir;
    var c :| 0 <= c < CLUSTER_MAP_SIZE && v.fat[c] == FAT32_FAT_EMPTY_ENTRY;
    assert c in FreeSet(v.fat);
  }

  lemma TwoClustersNeeded()
    ensures Clusters(FILE_SIZE) == 2
  {
  }

  lemma AllX(data: seq<char>)
    requires |data| == FILE_SIZE && forall i :: 0 <= i < FILE_SIZE ==> data[i] == 'x'
    ensures Overlay([], 0, data) == seq(FILE_SIZE, _ => 'x')
  {
  }

  /** Fill the file. */
  method FillTwoClusters(fs: Driver.Fat32, ghost s: Slot)
    requires fs.Shape() && fs.Valid() && Addressable(fs.V(), fs.m) && fs.m.chains.Keys == {s} && |fs.m.chains[s]| == 1
    requires HasRoom(fs.V(), []) && Lookup(fs.V(), ["a.t"]) == Some(s) && Abs(fs.V(), fs.m) == map[["a.t"] := File([])]
    requires ObjOf(fs.V(), fs.m, s) == File([])
    modifies fs`m, fs.disk, fs.cluster_map
    ensures fs.Valid() && TwoClusters(fs.V(), fs.m, s)
  {
    hide WF, Addressable, Abs, Tokens, HasRoom, Walk, FullName, EntryAt, IsDir, PathOf, Kept, SameNames, OthersKept,
         FreeSet, Clusters, Bytes, Overlay;
    OneExtensionOfAT();
    ghost var v0, m0 := fs.V(), fs.m;
    FileObj(v0, m0, s);
    var h := fs.Open("/a.t");
    var buffer := new char[FILE_SIZE](_ => 'x');
    assert buffer[..FILE_SIZE] == buffer[..];
    FreeCluster(v0);
    TwoClustersNeeded();
    AllX(buffer[..]);
    ghost var stale := h.buffer[..];
    var r := fs.WriteVfs(h, buffer, FILE_SIZE);
    Filled(v0, m0, fs.V(), fs.m, s, h.progress_pointer, stale, buffer[..], r);
  }

  lemma FileObj(v: Volume, m: Meta, s: Slot)
    requires s in m.chains && ObjOf(v, m, s) == File([])
    ensures !IsDir(EntryAt(v, s)) && Bytes(v, m, s) == []
  {
    hide EntryAt;
  }

  lemma Filled(v0: Volume, m0: Meta, v: Volume, m: Meta, s: Slot, p: nat, stale: Cluster, data: seq<char>, r: int)
    requires WF(v0, m0) && Addressable(v0, m0) && Abs(v0, m0) == map[["a.t"] := File([])]
    requires Lookup(v0, ["a.t"]) == Some(s)
    requires m0.chains.Keys == {s} && |m0.chains[s]| == 1 && !IsDir(EntryAt(v0, s)) && Bytes(v0, m0, s) == []
    requires Written(v0, m0, v, m, s, 0, p, stale, data, r) && |data| == FILE_SIZE && Clusters(FILE_SIZE) == 2
    requires |FreeSet(v0.fat)| >= 1 && Overlay([], 0, data) == seq(FILE_SIZE, _ => 'x')
    ensures TwoClusters(v, m, s)
  {
    hide WF, Addressable, Abs, PathOf, EntryAt, Walk, FreeSet, Clusters, Kept, OthersKept, Bytes, Overlay;
    WriteAbs(v0, m0, v, m, s, 0, p, stale, data, r);
    SameNamesAt(v0, m0, v, m, s);
    LookupIff(v0, m0, ["a.t"], s);
    AbsAt(v, m);
    assert ["a.t"] in Abs(v, m);
  }

  /** A file of two clusters of 'x'; one byte is read and one 'y' written, which should go to place 1. It goes to the
      same place of the next cluster. */
  method ReadThenWrite(fs: Driver.Fat32) returns (r: int, ghost s: Slot)
    requires fs.Shape() && fs.disk[0][..BLOCK_SIZE] != FsSignature()
    modifies fs`m, fs.disk, fs.cluster_map
    ensures fs.Valid() && fs.m.chains.Keys == {s} && r == 1
    ensures Bytes(fs.V(), fs.m, s) == seq(FILE_SIZE, i => if i == CLUSTER_SIZE + 1 then 'y' else 'x')
  {
    hide WF, Addressable, Abs, Tokens, Walk, FullName, EntryAt, IsDir, PathOf, Bytes, Overlay, HasRoom, Harmless,
         Misplaced;
    s := MakeFirst(fs);
    FillTwoClusters(fs, s);
    OneExtensionOfAT();
    LookupIff(fs.V(), fs.m, ["a.t"], s);
    ghost var v, m := fs.V(), fs.m;
    var h := fs.Open("/a.t");
    var out := new char[1];
    r := fs.ReadVfs(h, out, 1);
    InsideFirst(v, m, s);
    var buffer := new char[1](_ => 'y');
    assert buffer[..1] == "y";
    r := fs.WriteAfterRead(h, buffer, 1);
    SecondCluster(v, m, s);
  }

  lemma SecondCluster(v: Volume, m: Meta, s: Slot)
    requires TwoClusters(v, m, s) && Inside(v, m, s, 1, 1)
    ensures Bytes(Misplaced(v, m, s, 1, "y"), m, s) ==
      seq(FILE_SIZE, i => if i == CLUSTER_SIZE + 1 then 'y' else 'x')
  {
    hide WF, Addressable, EntryAt, IsDir, PathOf, Bytes, Overlay, ByteAt, Misplaced;
    var b := Bytes(Misplaced(v, m, s, 1, "y"), m, s);
    MisplacedAt(v, m, s, 1, "y", 0);
    forall x | 0 <= x < FILE_SIZE
      ensures b[x] == if x == CLUSTER_SIZE + 1 then 'y' else 'x'
    {
      SecondClusterAt(v, m, s, x);
    }
  }

  lemma SecondClusterAt(v: Volume, m: Meta, s: Slot, x: nat)
    requires TwoClusters(v, m, s) && Inside(v, m, s, 1, 1) && x < FILE_SIZE
    requires |Bytes(Misplaced(v, m, s, 1, "y"), m, s)| == FILE_SIZE
    ensures Bytes(Misplaced(v, m, s, 1, "y"), m, s)[x] == if x == CLUSTER_SIZE + 1 then 'y' else 'x'
  {
    hide WF, Addressable, EntryAt, IsDir, PathOf, Bytes, Overlay, ByteAt, Misplaced;
    MisplacedAt(v, m, s, 1, "y", x);
    var w := if CLUSTER_SIZE <= x then x - CLUSTER_SIZE else x;
    AllXAt(v, m, s, w);
    AllXAt(v, m, s, x);
  }

  lemma AllXAt(v: Volume, m: Meta, s: Slot, x: nat)
    requires TwoClusters(v, m, s) && x < FILE_SIZE
    ensures ByteAt(v.disk, m.chains[s], x) == 'x'
  {
    hide WF, Addressable, EntryAt, IsDir, PathOf, ByteAt;
    assert Bytes(v, m, s)[x] == 'x';
  }

  lemma InsideFirst(v: Volume, m: Meta, s: Slot)
    requires TwoClusters(v, m, s) && |v.disk| >= CLUSTER_MAP_SIZE
    ensures Inside(v, m, s, 1, 1)
  {
    hide WF, EntryAt, IsDir, Addressable, PathOf;
    SlotDir(v, m, s);
    ChainBounds(v, m, s, 0);
    ChainBounds(v, m, s, 1);
  }
}
