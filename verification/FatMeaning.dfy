/** What the driver's answers say about bytes on the disk and about the abstract file system, without the functions
    that compute them. */
module FatMeaning {
  import opened FatLayout
  import opened FatVolume
  import opened FatTree
  import opened FatFile
  import opened FatNames
  import opened FatSpec
  import opened CStrings
  import Driver = Fat32Driver

  // ---------- bytes on the disk ----------

  /** Where the fields of a directory entry are, numbers with their low byte first. */
  lemma EntryBytes(e: DirEntry)
    ensures var b := EncodeEntry(e);
      |b| == 32 && b[0..8] == e.name && b[8..11] == e.ext && b[11] == e.attribute && b[12] == e.user_attribute
      && e.cluster_high == b[20] as int + 0x100 * b[21] as int
      && e.cluster_low == b[26] as int + 0x100 * b[27] as int
      && e.filesize == b[28] as int + 0x100 * b[29] as int + 0x1_0000 * b[30] as int + 0x100_0000 * b[31] as int
  {
    hide U16, U32;
    var b := EncodeEntry(e);
    assert b[20..22] == U16(e.cluster_high) && b[26..28] == U16(e.cluster_low) && b[28..32] == U32(e.filesize);
    Bytes16(e.cluster_high);
    Bytes16(e.cluster_low);
    Bytes32(e.filesize);
    assert b[20] == b[20..22][0] && b[21] == b[20..22][1] && b[26] == b[26..28][0] && b[27] == b[26..28][1];
    assert forall k :: 0 <= k < 4 ==> b[28 + k] == b[28..32][k];
  }

  lemma Bytes16(x: int)
    requires 0 <= x < 0x1_0000
    ensures |U16(x)| == 2 && x == U16(x)[0] as int + 0x100 * U16(x)[1] as int
  {
  }

  lemma Bytes32(x: int)
    requires 0 <= x < 0x1_0000_0000
    ensures var b := U32(x);
      x == b[0] as int + 0x100 * b[1] as int + 0x1_0000 * b[2] as int + 0x100_0000 * b[3] as int
  {
    hide U16;
    var lo, hi := x % 0x1_0000, x / 0x1_0000;
    LowHalf(x);
    Bytes16(lo);
    Bytes16(hi);
  }

  lemma LowHalf(x: int)
    requires 0 <= x
    ensures U16(x) == U16(x % 0x1_0000)
  {
    assert (x % 0x1_0000) % 256 == x % 256;
    assert (x % 0x1_0000 / 256) % 256 == x / 256 % 256;
  }

  /** Entry `i` of a table is 32 bytes from 32 * i on, and cell `c` of the allocation table four from 4 * c on. */
  lemma TableBytes(t: DirTable, i: nat, k: nat)
    requires i < 64 && k < 32
    ensures EncodeTable(t)[32 * i + k] == EncodeEntry(t[i])[k]
  {
    TableSlice(t, i);
  }

  lemma FatBytes(f: FatMap, c: nat)
    requires c < 512
    ensures var b, o := EncodeFat(f), 4 * c;
      f[c] == b[o] as int + 0x100 * b[o + 1] as int + 0x1_0000 * b[o + 2] as int + 0x100_0000 * b[o + 3] as int
  {
    hide U32, EncodeFat;
    FatSlice(f, c);
    Bytes32(f[c]);
    var b, o := EncodeFat(f), 4 * c;
    assert b[o..o + 4] == [b[o], b[o + 1], b[o + 2], b[o + 3]];
  }

  /** The allocation table of a formatted disk, byte for byte: two reserved cells, the end of the root directory's
      chain, and free cells. */
  lemma FormattedBytes(k: nat)
    requires k < 2048
    ensures EncodeFat(FreshFat())[k] as int ==
      if k >= 12 then 0 else if k % 4 == 3 then 0x0F else if k % 4 == 0 && k < 8 then 0xF0 else 0xFF
  {
    var c, i := k / 4, k % 4;
    FatSlice(FreshFat(), c);
    var b := EncodeFat(FreshFat());
    hide EncodeFat;
    assert b[4 * c..4 * c + 4][i] == b[k];
  }

  /** Byte `x` of a file is byte x % 2048 of cluster x / 2048 of its chain. */
  lemma BytesOnDisk(v: Volume, m: Meta, s: Slot, x: nat)
    requires WF(v, m) && s in m.chains && !IsDir(EntryAt(v, s)) && x < |Bytes(v, m, s)|
    ensures x / 2048 < |m.chains[s]| && m.chains[s][x / 2048] < |v.disk|
    ensures |Bytes(v, m, s)| == EntryAt(v, s).filesize
    ensures Bytes(v, m, s)[x] == v.disk[m.chains[s][x / 2048]][x % 2048]
  {
    hide EntryAt, WF, IsDir;
    SizeCovered(v, m, s);
    ChainBounds(v, m, s, x / 2048);
  }

  // ---------- listings ----------

  /** How many entries from `i` on are used. */
  lemma {:induction false} CountMeans(t: DirTable, i: nat)
    requires i <= 64
    ensures CountUsed(t, i) == |set j | i <= j < 64 && t[j].user_attribute == 170 as char|
    decreases 64 - i
  {
    var all := set j | i <= j < 64 && t[j].user_attribute == 170 as char;
    if i < 64 {
      CountMeans(t, i + 1);
      var rest := set j | i + 1 <= j < 64 && t[j].user_attribute == 170 as char;
      assert all == if Used(t[i]) then rest + {i} else rest;
    } else {
      assert all == {};
    }
  }

  /** The used entries before `j` come before it in a listing, and nothing else does. */
  lemma {:induction false} ListMeans(v: Volume, t: DirTable, i: nat, j: nat)
    requires i <= j < 64 && t[j].user_attribute == 170 as char
    ensures var k, l := |set n | i <= n < j && t[n].user_attribute == 170 as char|, Driver.ListEntries(v, t, i);
      |l| == CountUsed(t, i) && k < |l| && l[k] == Driver.Described(v, t[j])
    decreases 64 - i
  {
    hide Driver.Described, CountUsed;
    var before := set n | i <= n < j && t[n].user_attribute == 170 as char;
    ListLength(v, t, i);
    if i < j {
      ListMeans(v, t, i + 1, j);
      UsedBefore(t, i, j);
      hide Used;
      ListFront(v, t, i);
    } else {
      assert before == {};
      assert Used(t[i]);
    }
  }

  lemma UsedBefore(t: DirTable, i: nat, j: nat)
    requires i < j < 64
    ensures |set n | i <= n < j && t[n].user_attribute == 170 as char| ==
      (if Used(t[i]) then 1 else 0) + |set n | i + 1 <= n < j && t[n].user_attribute == 170 as char|
  {
    var all := set n | i <= n < j && t[n].user_attribute == 170 as char;
    var rest := set n | i + 1 <= n < j && t[n].user_attribute == 170 as char;
    assert all == if Used(t[i]) then rest + {i} else rest;
  }

  lemma ListFront(v: Volume, t: DirTable, i: nat)
    requires i < 64
    ensures Driver.ListEntries(v, t, i) ==
      (if Used(t[i]) then [Driver.Described(v, t[i])] else []) + Driver.ListEntries(v, t, i + 1)
  {
  }

  lemma {:induction false} ListLength(v: Volume, t: DirTable, i: nat)
    requires i <= 64
    ensures |Driver.ListEntries(v, t, i)| == CountUsed(t, i)
    decreases 64 - i
  {
    hide Driver.Described, Used;
    if i < 64 { ListLength(v, t, i + 1); }
  }

  // ---------- the abstract file system ----------

  function Children(fs: FileSystem, p: Path): set<Path> {
    set q | q in fs && |q| == |p| + 1 && q[..|p|] == p
  }

  predicate IsDirectory(fs: FileSystem, p: Path) { p == [] || (p in fs && fs[p] == Directory) }

  /** The used slots of a directory are its children. */
  lemma ChildSlots(v: Volume, m: Meta, d: nat, q: Path)
    requires WF(v, m) && Addressable(v, m) && d in m.depth
    ensures q in Children(Abs(v, m), DirPath(v, m, d)) <==>
      exists j :: RESERVED_ENTRY <= j < MAX_DIR_TABLE_ENTRY && Slot(d, j) in m.chains && PathOf(v, m, Slot(d, j)) == q
  {
    hide EntryAt, FullName, ObjOf, Abs, WF, Addressable;
    var p := DirPath(v, m, d);
    AbsAt(v, m);
    if q in Children(Abs(v, m), p) {
      var s :| s in m.chains && PathOf(v, m, s) == q;
      SlotDir(v, m, s);
      assert q[..|q| - 1] == DirPath(v, m, s.dir);
      DirPathInjective(v, m, s.dir, d);
      assert s == Slot(d, s.idx);
    }
    if j :| RESERVED_ENTRY <= j < MAX_DIR_TABLE_ENTRY && Slot(d, j) in m.chains && PathOf(v, m, Slot(d, j)) == q {
      SlotDir(v, m, Slot(d, j));
      assert q[..|q| - 1] == p;
    }
  }

  lemma {:induction false} SameCard<A, B>(f: map<A, B>)
    requires forall a, b :: a in f && b in f && a != b ==> f[a] != f[b]
    ensures |f.Values| == |f.Keys|
    decreases |f|
  {
    if f.Keys == {} {
      assert f.Values == {};
    } else {
      var a :| a in f;
      var g := f - {a};
      SameCard(g);
      assert f.Values == g.Values + {f[a]} && f[a] !in g.Values;
      assert f.Keys == g.Keys + {a};
    }
  }

  /** The number of used entries of a directory is the number of its children. */
  lemma CountChildren(v: Volume, m: Meta, d: nat)
    requires WF(v, m) && Addressable(v, m) && d in m.depth
    ensures CountUsed(Table(v, d), RESERVED_ENTRY) == |Children(Abs(v, m), DirPath(v, m, d))|
  {
    hide WF, Addressable, Abs, Table, DirPath, Children, CountUsed;
    SlotCount(v, m, d);
    ChildCount(v, m, d, set j | RESERVED_ENTRY <= j < MAX_DIR_TABLE_ENTRY && Slot(d, j) in m.chains);
  }

  lemma SlotCount(v: Volume, m: Meta, d: nat)
    requires WF(v, m) && d in m.depth
    ensures CountUsed(Table(v, d), RESERVED_ENTRY) ==
      |set j | RESERVED_ENTRY <= j < MAX_DIR_TABLE_ENTRY && Slot(d, j) in m.chains|
  {
    hide WF, Table, CountUsed;
    CountMeans(Table(v, d), RESERVED_ENTRY);
    UsedSlots(v, m, d);
    assert (set j | RESERVED_ENTRY <= j < MAX_DIR_TABLE_ENTRY && Slot(d, j) in m.chains) ==
      set j | RESERVED_ENTRY <= j < 64 && Table(v, d)[j].user_attribute == 170 as char;
  }

  lemma ChildCount(v: Volume, m: Meta, d: nat, js: set<nat>)
    requires WF(v, m) && Addressable(v, m) && d in m.depth
    requires js == set j | RESERVED_ENTRY <= j < MAX_DIR_TABLE_ENTRY && Slot(d, j) in m.chains
    ensures |js| == |Children(Abs(v, m), DirPath(v, m, d))|
  {
    hide WF, Addressable, Abs, DirPath, PathOf, Children, ObjOf;
    var f := map j | j in js :: PathOf(v, m, Slot(d, j));
    var cs := Children(Abs(v, m), DirPath(v, m, d));
    forall q
      ensures q in f.Values <==> q in cs
    {
      ChildSlots(v, m, d, q);
      if j :| RESERVED_ENTRY <= j < MAX_DIR_TABLE_ENTRY && Slot(d, j) in m.chains && PathOf(v, m, Slot(d, j)) == q {
        assert j in f && f[j] == q;
      }
    }
    assert f.Keys == js && f.Values == cs;
    forall a, b | a in f && b in f && a != b
      ensures f[a] != f[b]
    {
      PathsDiffer(v, m, Slot(d, a), Slot(d, b));
    }
    SameCard(f);
  }

  lemma PathsDiffer(v: Volume, m: Meta, s: Slot, t: Slot)
    requires WF(v, m) && Addressable(v, m) && s in m.chains && t in m.chains && s != t
    ensures PathOf(v, m, s) != PathOf(v, m, t)
  {
    hide WF, Addressable, Abs, PathOf, ObjOf;
    AbsAt(v, m);
  }

  lemma UsedSlots(v: Volume, m: Meta, d: nat)
    requires WF(v, m) && d in m.depth
    ensures forall j :: RESERVED_ENTRY <= j < MAX_DIR_TABLE_ENTRY ==>
      (Slot(d, j) in m.chains <==> Table(v, d)[j].user_attribute == 170 as char)
  {
    Driver.Fat32.TableAt(v, m, d);
    hide EntryAt, Table;
  }

  // ---------- stat and dirstat ----------

  /** What is said of the object at `p`: the last component of its path, its kind, and its number of children or of
      bytes. */
  ghost predicate Describes(fs: FileSystem, p: Path, e: Driver.VfsEntry)
    requires p != []
  {
    && p in fs && e.name == p[|p| - 1] && (e.isDir <==> fs[p] == Directory)
    && e.size == if fs[p] == Directory then |Children(fs, p)| else |fs[p].bytes|
  }

  lemma DescribedAbs(v: Volume, m: Meta, s: Slot)
    requires WF(v, m) && Addressable(v, m) && s in m.chains
    ensures Describes(Abs(v, m), PathOf(v, m, s), Driver.Described(v, EntryAt(v, s)))
  {
    hide WF, Addressable, Abs, EntryAt, FullName, IsDir, ClusterOf, CountUsed, Children, Table;
    AbsAt(v, m);
    if IsDir(EntryAt(v, s)) {
      ChildDir(v, m, s);
      CountChildren(v, m, ClusterOf(EntryAt(v, s)));
    }
  }

  /** `stat` answers exactly for the paths that exist, and describes the object there. */
  method StatAbs(fs: Driver.Fat32, path: seq<char>) returns (status: int, e: Driver.VfsEntry)
    requires NUL !in path && Tokens(path, '/') != [] && fs.Shape()
    requires fs.Valid() && Addressable(fs.V(), fs.m)
    ensures fs.Valid() && (status == 0 <==> Tokens(path, '/') in Abs(fs.V(), fs.m))
    ensures status == 0 ==> Describes(Abs(fs.V(), fs.m), Tokens(path, '/'), e)
  {
    hide WF, Addressable, Abs, Tokens, Walk, PathOf, Describes, EntryAt, Driver.Described;
    status, e := fs.Stat(path);
    LookupAbs(fs.V(), fs.m, Tokens(path, '/'));
    if status == 0 { DescribedAbs(fs.V(), fs.m, Lookup(fs.V(), Tokens(path, '/')).value); }
  }

  /** A path is found exactly when it exists. */
  lemma LookupAbs(v: Volume, m: Meta, p: Path)
    requires WF(v, m) && Addressable(v, m) && p != []
    ensures var r := Lookup(v, p);
      (r.Some? <==> p in Abs(v, m))
      && (r.Some? ==> r.value in m.chains && PathOf(v, m, r.value) == p && ObjOf(v, m, r.value) == Abs(v, m)[p])
  {
    hide WF, Addressable, Abs, Walk, PathOf, ObjOf;
    AbsAt(v, m);
    var r := Lookup(v, p);
    if r.Some? { LookupIff(v, m, p, r.value); }
    if p in Abs(v, m) {
      var s :| s in m.chains && PathOf(v, m, s) == p;
      LookupIff(v, m, p, s);
    }
  }

  /** A path leads to a directory exactly when it is one, and then to its table. */
  lemma TargetAbs(v: Volume, m: Meta, p: Path)
    requires WF(v, m) && Addressable(v, m)
    ensures TargetDir(v, p).Some? <==> IsDirectory(Abs(v, m), p)
    ensures TargetDir(v, p).Some? ==> TargetDir(v, p).value in m.depth && DirPath(v, m, TargetDir(v, p).value) == p
  {
    hide WF, Addressable, Abs, Walk, PathOf, EntryAt, IsDir, ClusterOf, DirPath;
    TargetDirPath(v, m, p);
    if p != [] {
      LookupAbs(v, m, p);
    }
  }

  /** The listing of a directory describes each of its children once. */
  lemma ListChildren(v: Volume, m: Meta, d: nat)
    requires WF(v, m) && Addressable(v, m) && d in m.depth
    ensures var fs, p, l := Abs(v, m), DirPath(v, m, d), Driver.ListEntries(v, Table(v, d), RESERVED_ENTRY);
      |l| == |Children(fs, p)| && forall q | q in Children(fs, p) :: exists k :: 0 <= k < |l| && Describes(fs, q, l[k])
  {
    hide WF, Addressable, Abs, Describes, DirPath, PathOf, Children, CountUsed, EntryAt, Table, Driver.Described,
         Driver.ListEntries;
    CountChildren(v, m, d);
    ListLength(v, Table(v, d), RESERVED_ENTRY);
    Driver.Fat32.TableAt(v, m, d);
    UsedSlots(v, m, d);
    var l := Driver.ListEntries(v, Table(v, d), RESERVED_ENTRY);
    forall q | q in Children(Abs(v, m), DirPath(v, m, d))
      ensures q != [] && exists k :: 0 <= k < |l| && Describes(Abs(v, m), q, l[k])
    {
      ChildSlots(v, m, d, q);
      var j :| RESERVED_ENTRY <= j < MAX_DIR_TABLE_ENTRY && Slot(d, j) in m.chains && PathOf(v, m, Slot(d, j)) == q;
      ListMeans(v, Table(v, d), RESERVED_ENTRY, j);
      DescribedAbs(v, m, Slot(d, j));
    }
  }

  // ---------- names ----------

  /** A path is cut at its last slash. */
  lemma PathSplits(d: seq<char>, n: seq<char>)
    requires '/' !in n
    ensures ParentPart(d + "/" + n) == d && NamePart(d + "/" + n) == n
    ensures ParentPart(n) == [] && NamePart(n) == n
  {
    var path := d + "/" + n;
    assert path[|d|] == '/' && path[|d| + 1..] == n && path[..|d|] == d;
    forall j | |d| < j < |path|
      ensures path[j] != '/'
    {
      assert path[j] == n[j - |d| - 1];
    }
    assert LastSlash(path) == |d|;
    assert LastSlash(n) == -1;
  }

  /** A file name is cut at its dot. */
  lemma NameSplits(a: seq<char>, b: seq<char>)
    requires a != [] && '.' !in a && '.' !in b
    ensures Stem(a) == a && Extension(a) == []
    ensures b != [] ==> Stem(a + "." + b) == a && Extension(a + "." + b) == b
    ensures Joined(a, []) == a && (b != [] ==> Joined(a, b) == a + "." + b)
  {
    TokensHead(a, [], '.');
    assert a + [] == a;
    if b != [] {
      TokensHead(a, "." + b, '.');
      TokensHead(b, [], '.');
      assert b + [] == b && a + "." + b == a + ("." + b) && ("." + b)[1..] == b;
    }
  }

  // ---------- making and deleting ----------

  /** A file made as `d/a` or `d/a.b` is found at that path afterwards, empty, and nothing else has changed: unless the
      path existed before. */
  lemma MakesFile(v0: Volume, m0: Meta, v: Volume, m: Meta, s: Slot, d: seq<char>, a: seq<char>, b: seq<char>)
    requires a != [] && '.' !in a && '.' !in b && '/' !in a && '/' !in b && WF(v0, m0) && Addressable(v0, m0)
    requires var path := d + "/" + (if b == [] then a else a + "." + b);
      CreatedAs(v0, m0, v, m, s, ParentPart(path), Stem(NamePart(path)), Extension(NamePart(path)), true)
    ensures var p := Tokens(d, '/') + [if b == [] then a else a + "." + b];
      WF(v, m) && (Addressable(v, m) <==> p !in Abs(v0, m0))
      && (Addressable(v, m) ==> Abs(v, m) == Abs(v0, m0)[p := File([])] && Lookup(v, p) == Some(s))
  {
    var n := if b == [] then a else a + "." + b;
    var path := d + "/" + n;
    hide *;
    NamedFile(d, a, b);
    MkFileAbs(v0, m0, v, m, s, path);
  }

  lemma NamedFile(d: seq<char>, a: seq<char>, b: seq<char>)
    requires a != [] && '.' !in a && '.' !in b && '/' !in a && '/' !in b
    ensures var n := if b == [] then a else a + "." + b;
      var path := d + "/" + n;
      Tokens(NamePart(path), '.') != [] && OneExtension(NamePart(path))
      && FilePath(path) == Tokens(path, '/') == Tokens(d, '/') + [n]
  {
    var n := if b == [] then a else a + "." + b;
    PathSplits(d, n);
    NameSplits(a, b);
    PathParts(d + "/" + n);
    TokensSome(n);
    hide Tokens, LastSlash, OneExtension, Stem, Extension, Joined;
    SplitJoin(n);
  }

  lemma TokensSome(n: seq<char>)
    requires n != [] && n[0] != '.'
    ensures Tokens(n, '.') != []
  {
  }

  /** mkgeneral makes an entry exactly when the parent is a directory with fewer than 62 children, none of the name,
      and some cluster is free. */
  lemma CreatesExactly(v: Volume, m: Meta, path: seq<char>, name: seq<char>)
    requires WF(v, m) && Addressable(v, m)
    ensures MayCreate(v, path, name) <==>
      && path != "." && path != ".." && IsDirectory(Abs(v, m), Tokens(path, '/'))
      && Tokens(path, '/') + [name] !in Abs(v, m) && |Children(Abs(v, m), Tokens(path, '/'))| < 62
      && exists c :: 0 <= c < 512 && v.fat[c] == 0
  {
    hide WF, Addressable, Abs, Tokens, DirPath, Children, IsDirectory, Table, TargetDir, FindName, CountUsed, Used;
    var p := Tokens(path, '/');
    TargetAbs(v, m, p);
    if TargetDir(v, p).Some? {
      var d := TargetDir(v, p).value;
      CountChildren(v, m, d);
      RoomLeft(Table(v, d));
      if MayCreate(v, path, name) { CheckSuffices(v, m, path, name); }
      if p + [name] !in Abs(v, m) { NotFound(v, m, d, name); }
    }
  }

  lemma NotFound(v: Volume, m: Meta, d: nat, name: seq<char>)
    requires WF(v, m) && Addressable(v, m) && d in m.depth && DirPath(v, m, d) + [name] !in Abs(v, m)
    ensures FindName(Table(v, d), name, RESERVED_ENTRY) == MAX_DIR_TABLE_ENTRY
  {
    hide WF, Addressable, Abs, PathOf, Table, EntryAt, FindName, DirPath;
    FoundSlot(v, m, d, name);
    AbsAt(v, m);
    FindBound(Table(v, d), name);
  }

  lemma FindBound(t: DirTable, name: seq<char>)
    ensures RESERVED_ENTRY <= FindName(t, name, RESERVED_ENTRY) <= MAX_DIR_TABLE_ENTRY
  {
  }

  /** A table has an unused entry behind the two links exactly when fewer than 62 are used. */
  lemma RoomLeft(t: DirTable)
    ensures CountUsed(t, RESERVED_ENTRY) < 62 <==>
      exists i :: RESERVED_ENTRY <= i < MAX_DIR_TABLE_ENTRY && !Used(t[i])
  {
    CountMeans(t, RESERVED_ENTRY);
    var used := set j | RESERVED_ENTRY <= j < 64 && t[j].user_attribute == 170 as char;
    hide CountUsed;
    assert forall j :: RESERVED_ENTRY <= j < MAX_DIR_TABLE_ENTRY ==> (j in used <==> Used(t[j]));
    assert forall j :: j in used ==> RESERVED_ENTRY <= j < MAX_DIR_TABLE_ENTRY;
    hide Used;
    NotAll(used, RESERVED_ENTRY, MAX_DIR_TABLE_ENTRY);
  }

  lemma NotAll(used: set<nat>, a: nat, b: nat)
    requires a <= b && forall j :: j in used ==> a <= j < b
    ensures |used| < b - a <==> exists i :: a <= i < b && i !in used
  {
    var all := Interval(a, b);
    if i :| a <= i < b && i !in used {
      Subset(used, all - {i});
    } else {
      assert used == all;
    }
  }

  function Interval(a: nat, b: nat): (r: set<nat>)
    requires a <= b
    ensures |r| == b - a && forall j :: j in r <==> a <= j < b
    decreases b - a
  {
    if a == b then {} else Interval(a, b - 1) + {b - 1}
  }

  lemma {:induction false} Subset(a: set<nat>, b: set<nat>)
    requires a <= b
    ensures |a| <= |b|
    decreases |a|
  {
    if a != {} {
      var x :| x in a;
      Subset(a - {x}, b - {x});
    }
  }

  /** delete_vfs deletes exactly the files and the directories without children. */
  lemma DeletesExactly(v: Volume, m: Meta, p: Path)
    requires WF(v, m) && Addressable(v, m) && p != []
    ensures (Lookup(v, p).Some? && Removable(v, m, Lookup(v, p).value)) <==>
      p in Abs(v, m) && (Abs(v, m)[p].File? || Children(Abs(v, m), p) == {})
  {
    hide WF, Addressable, Abs, Walk, PathOf, ObjOf, Children, Removable;
    LookupAbs(v, m, p);
    if Lookup(v, p).Some? { RemovesExactly(v, m, Lookup(v, p).value); }
  }

  lemma RemovesExactly(v: Volume, m: Meta, s: Slot)
    requires WF(v, m) && Addressable(v, m) && s in m.chains
    ensures Removable(v, m, s) <==> ObjOf(v, m, s).File? || Children(Abs(v, m), PathOf(v, m, s)) == {}
  {
    hide WF, Addressable, Abs, PathOf, EntryAt, Children, IsDir, ClusterOf, DirPath;
    if IsDir(EntryAt(v, s)) {
      ChildDir(v, m, s);
      var d := ClusterOf(EntryAt(v, s));
      if t :| t in m.chains && t.dir == d {
        SlotDir(v, m, t);
        ChildSlots(v, m, d, PathOf(v, m, t));
        assert t == Slot(d, t.idx);
      }
      if q :| q in Children(Abs(v, m), PathOf(v, m, s)) { ChildSlots(v, m, d, q); }
    } else {
      forall t | t in m.chains
        ensures t.dir !in m.chains[s]
      {
        SlotDir(v, m, t);
        if t.dir in m.chains[s] {
          var k :| 0 <= k < |m.chains[s]| && m.chains[s][k] == t.dir;
          FileCluster(v, m, s, k);
        }
      }
    }
  }
}
