/** The shell's recursive delete (src/program/shell/delete.c) over the FAT driver, with no mount point
    below the deleted path. */
module ShellDelete {
  import opened FatLayout
  import opened FatVolume
  import opened FatTree
  import opened FatFile
  import opened FatNames
  import opened FatSpec
  import opened CStrings
  import Driver = Fat32Driver

  const MAX_PATH := 1024

  /** The slots at or below a path. */
  ghost function Under(v: Volume, m: Meta, p: Path): set<Slot>
    requires WF(v, m)
  {
    set s | s in m.chains && p <= PathOf(v, m, s)
  }

  /** Exactly the slots in `dead` are gone; every other slot has its entry, chain, data and path. */
  ghost predicate Pruned(v0: Volume, m0: Meta, v: Volume, m: Meta, dead: set<Slot>)
    requires WF(v0, m0) && WF(v, m)
  {
    && m.chains.Keys == m0.chains.Keys - dead
    && (forall s {:trigger s in m.chains} | s in m.chains ::
          Kept(v0, m0, v, m, s) && PathOf(v, m, s) == PathOf(v0, m0, s))
  }

  lemma PrunedTrans(v0: Volume, m0: Meta, v1: Volume, m1: Meta, v2: Volume, m2: Meta, a: set<Slot>, b: set<Slot>)
    requires WF(v0, m0) && WF(v1, m1) && WF(v2, m2)
    requires Pruned(v0, m0, v1, m1, a) && Pruned(v1, m1, v2, m2, b)
    ensures Pruned(v0, m0, v2, m2, a + b)
  {
    hide WF, PathOf, EntryAt;
  }

  lemma PrunedSame(v: Volume, m: Meta)
    requires WF(v, m)
    ensures Pruned(v, m, v, m, {})
  {
    hide WF, PathOf, EntryAt;
  }

  /** The clusters freed by a pruning are exactly those of the dead slots' chains. */
  lemma PrunedClusters(v0: Volume, m0: Meta, v: Volume, m: Meta, dead: set<Slot>, c: nat)
    requires WF(v0, m0) && WF(v, m) && Pruned(v0, m0, v, m, dead) && 3 <= c < CLUSTER_MAP_SIZE
    ensures v.fat[c] == if c in m0.home && m0.home[c] in dead then FAT32_FAT_EMPTY_ENTRY else v0.fat[c]
  {
    hide PathOf, EntryAt, Tree, Header;
    if c in m.home {
      HomeKept(v0, m0, v, m, dead, c);
    }
    if c in m0.home {
      assert Owned(m0, c);
      var s := m0.home[c];
      var k :| 0 <= k < |m0.chains[s]| && m0.chains[s][k] == c;
      if s in m.chains {
        assert Owns(m, s, k);
        ChainNext(v0, m0, s, k);
        ChainNext(v, m, s, k);
      }
    }
  }

  lemma HomeKept(v0: Volume, m0: Meta, v: Volume, m: Meta, dead: set<Slot>, c: nat)
    requires WF(v0, m0) && WF(v, m) && Pruned(v0, m0, v, m, dead) && c in m.home
    ensures m.home[c] in m.chains && c in m0.home && m0.home[c] == m.home[c]
  {
    hide PathOf, EntryAt, Tree, Header;
    assert Owned(m, c);
    var t := m.home[c];
    var j :| 0 <= j < |m.chains[t]| && m.chains[t][j] == c;
    assert t in m0.chains && m0.chains[t] == m.chains[t];
    assert Owns(m0, t, j);
  }

  /** Pruning the slots below a path removes exactly that subtree of the abstract file system. */
  lemma PrunedAbs(v0: Volume, m0: Meta, v: Volume, m: Meta, p: Path)
    requires WF(v0, m0) && WF(v, m) && Addressable(v0, m0) && Addressable(v, m)
    requires Pruned(v0, m0, v, m, Under(v0, m0, p))
    ensures Abs(v, m) == map q | q in Abs(v0, m0) && !(p <= q) :: Abs(v0, m0)[q]
  {
    hide WF, PathOf, EntryAt, Abs, ObjOf, Kept, Addressable;
    AbsAt(v0, m0);
    AbsAt(v, m);
    var a0, a := Abs(v0, m0), Abs(v, m);
    forall q
      ensures q in a <==> q in a0 && !(p <= q)
      ensures q in a ==> a[q] == a0[q]
    {
      if q in a {
        var s :| s in m.chains && PathOf(v, m, s) == q;
        KeptObj(v0, m0, v, m, s);
      }
      if q in a0 && !(p <= q) {
        var s :| s in m0.chains && PathOf(v0, m0, s) == q;
        assert s in m.chains && PathOf(v, m, s) == q;
      }
    }
  }

  lemma DeletePrunes(v0: Volume, m0: Meta, v: Volume, m: Meta, s: Slot)
    requires WF(v0, m0) && Addressable(v0, m0) && DeletedSlot(v0, m0, v, m, s)
    ensures WF(v, m) && Addressable(v, m) && Pruned(v0, m0, v, m, {s})
  {
    hide EntryAt, FullName, IsLink, Linked, Hung, Housed, Header, PathOf, Partitioned, RemoveEntry, Abs;
    DeleteAbs(v0, m0, v, m, s);
    forall t | t in m.chains
      ensures PathOf(v, m, t) == PathOf(v0, m0, t)
    {
      PathFrame(v0, m0, v, m, t);
    }
  }

  // ---------- the tree below a directory ----------

  /** Every non-empty prefix of an existing path exists. */
  lemma {:induction false} PrefixSlot(v: Volume, m: Meta, t: Slot, k: nat) returns (u: Slot)
    requires WF(v, m) && t in m.chains && 0 < k <= |PathOf(v, m, t)|
    ensures u in m.chains && PathOf(v, m, u) == PathOf(v, m, t)[..k]
    decreases m.depth[t.dir]
  {
    hide EntryAt, FullName, IsLink, Linked, Housed, Header, Partitioned;
    if k == |PathOf(v, m, t)| {
      u := t;
    } else {
      assert t.dir != ROOT_CLUSTER_NUMBER;
      assert Hung(v, m, t.dir);
      u := PrefixSlot(v, m, m.home[t.dir], k);
    }
  }

  /** What lies strictly below a directory lies below one of the names it lists. */
  lemma BelowChild(v: Volume, m: Meta, s: Slot, t: Slot)
    requires WF(v, m) && Addressable(v, m) && s in m.chains && IsDir(EntryAt(v, s)) && t in m.chains && t != s
    requires PathOf(v, m, s) <= PathOf(v, m, t)
    ensures exists n ::
      n in ListNames(Table(v, ClusterOf(EntryAt(v, s))), RESERVED_ENTRY) && PathOf(v, m, s) + [n] <= PathOf(v, m, t)
  {
    hide EntryAt, FullName, IsLink, Linked, Housed, Header, Partitioned, Table, ListNames, Abs;
    AbsAt(v, m);
    var p, q := PathOf(v, m, s), PathOf(v, m, t);
    assert |p| < |q|;
    var u := PrefixSlot(v, m, t, |p| + 1);
    ChildDir(v, m, s);
    SlotDir(v, m, u);
    var n := FullName(EntryAt(v, u));
    assert PathOf(v, m, u)[..|p|] == DirPath(v, m, u.dir) == p;
    DirPathInjective(v, m, u.dir, ClusterOf(EntryAt(v, s)));
    EntryTable(v, u);
    ListNamesHas(Table(v, u.dir), RESERVED_ENTRY, n);
    assert Names(Table(v, u.dir)[u.idx], n);
    assert p + [n] == PathOf(v, m, u);
  }

  /** An entry of the directory has the directory's path and a listed name. */
  lemma ChildPath(v: Volume, m: Meta, s: Slot, t: Slot)
    requires WF(v, m) && s in m.chains && IsDir(EntryAt(v, s)) && t in m.chains && t.dir in m.chains[s]
    ensures PathOf(v, m, t) == PathOf(v, m, s) + [FullName(EntryAt(v, t))]
  {
    hide EntryAt, FullName, IsLink, Linked, Housed, Header, Partitioned;
    ChildDir(v, m, s);
  }

  /** Characters a relative path takes: a slash and a name per component. */
  function PathLength(q: Path): nat {
    if q == [] then 0 else 1 + |q[0]| + PathLength(q[1..])
  }

  /** No path below `p` is cut off by the shell's path buffer. */
  ghost predicate Fits(v: Volume, m: Meta, path: seq<char>, p: Path)
    requires WF(v, m)
  {
    forall t {:trigger PathOf(v, m, t)} | t in m.chains && p <= PathOf(v, m, t) ::
      |path| + PathLength(PathOf(v, m, t)[|p|..]) < MAX_PATH
  }

  /** The bounded `strcpy` and `strcat` of the shell. */
  function Bounded(s: seq<char>): seq<char> { if |s| < MAX_PATH then s else s[..MAX_PATH - 1] }

  lemma FitsChild(v: Volume, m: Meta, path: seq<char>, p: Path, n: seq<char>, t: Slot)
    requires WF(v, m) && Fits(v, m, path, p) && t in m.chains && p + [n] <= PathOf(v, m, t)
    ensures |path| + 1 + |n| + PathLength(PathOf(v, m, t)[|p| + 1..]) < MAX_PATH
  {
    hide WF, PathOf;
    var q := PathOf(v, m, t);
    assert q[|p|..][1..] == q[|p| + 1..] && q[|p|..][0] == (p + [n])[|p|];
    assert p <= q;
  }

  lemma NameChars(e: DirEntry)
    ensures NUL !in FullName(e)
  {
  }

  /** A listed name belongs to an entry of the directory, so its path exists and is not cut off. */
  lemma ListedName(v: Volume, m: Meta, path: seq<char>, s: Slot, n: seq<char>)
    requires WF(v, m) && Addressable(v, m) && s in m.chains && IsDir(EntryAt(v, s))
    requires Fits(v, m, path, PathOf(v, m, s))
    requires n in ListNames(Table(v, ClusterOf(EntryAt(v, s))), RESERVED_ENTRY)
    ensures PlainName(n) && NUL !in n && |path| + 1 + |n| < MAX_PATH
  {
    hide FullName, IsLink, Linked, Housed, Header, Partitioned, Table, ListNames, Abs, EntryAt, Fits;
    ChildDir(v, m, s);
    var d := ClusterOf(EntryAt(v, s));
    ListNamesHas(Table(v, d), RESERVED_ENTRY, n);
    var j :| RESERVED_ENTRY <= j < MAX_DIR_TABLE_ENTRY && Names(Table(v, d)[j], n);
    var u := Slot(d, j);
    SlotEntry(v, m, d, j);
    assert u in m.chains;
    NameChars(EntryAt(v, u));
    FitsChild(v, m, path, PathOf(v, m, s), n, u);
  }

  lemma SlotEntry(v: Volume, m: Meta, d: nat, j: nat)
    requires WF(v, m) && d in m.depth && j < MAX_DIR_TABLE_ENTRY
    ensures EntryAt(v, Slot(d, j)) == Table(v, d)[j]
  {
    hide IsLink, DecodeTable;
    assert Linked(v, m, d);
  }

  // ---------- the program ----------

  /** The slots below the first names of a listing. */
  ghost function Dead(v: Volume, m: Meta, p: Path, names: seq<seq<char>>): set<Slot>
    requires WF(v, m)
  {
    set t | t in m.chains && exists n :: n in names && p + [n] <= PathOf(v, m, t)
  }

  lemma DeadNext(v0: Volume, m0: Meta, v: Volume, m: Meta, p: Path, names: seq<seq<char>>, n: seq<char>)
    requires WF(v0, m0) && WF(v, m) && Pruned(v0, m0, v, m, Dead(v0, m0, p, names))
    ensures Dead(v0, m0, p, names) + Under(v, m, p + [n]) == Dead(v0, m0, p, names + [n])
  {
    hide WF, PathOf, Kept;
    var a, b, c := Dead(v0, m0, p, names), Under(v, m, p + [n]), Dead(v0, m0, p, names + [n]);
    forall t | t in a + b
      ensures t in c
    {
      if t in a {
        var k :| k in names && p + [k] <= PathOf(v0, m0, t);
        assert k in names + [n];
      } else {
        assert n in names + [n];
      }
    }
    forall t | t in c
      ensures t in a + b
    {
      var k :| k in names + [n] && p + [k] <= PathOf(v0, m0, t);
      if k !in names {
        assert k == n;
        if t !in a { assert t in m.chains; }
      }
    }
  }

  /** What is below one listed name still fits, in a longer path buffer. */
  lemma FitsNext(v0: Volume, m0: Meta, v: Volume, m: Meta, path: seq<char>, p: Path, n: seq<char>, dead: set<Slot>)
    requires WF(v0, m0) && WF(v, m) && Pruned(v0, m0, v, m, dead) && Fits(v0, m0, path, p)
    ensures Fits(v, m, path + ['/'] + n, p + [n])
  {
    hide WF, PathOf, Kept;
    forall t | t in m.chains && p + [n] <= PathOf(v, m, t)
      ensures |path + ['/'] + n| + PathLength(PathOf(v, m, t)[|p + [n]|..]) < MAX_PATH
    {
      FitsChild(v0, m0, path, p, n, t);
    }
  }

  lemma NothingUnder(v: Volume, m: Meta, p: Path)
    requires WF(v, m) && Addressable(v, m) && p != [] && Lookup(v, p).None?
    ensures Under(v, m, p) == {}
  {
    hide EntryAt, FullName, Walk, Addressable, WF, PathOf;
    if t :| t in m.chains && p <= PathOf(v, m, t) {
      var u := PrefixSlot(v, m, t, |p|);
      LookupIff(v, m, p, u);
    }
  }

  /** A slot without entries below it stands alone under its path. */
  lemma LeafUnder(v: Volume, m: Meta, s: Slot)
    requires WF(v, m) && Addressable(v, m) && s in m.chains
    requires IsDir(EntryAt(v, s)) ==> CountUsed(Table(v, ClusterOf(EntryAt(v, s))), RESERVED_ENTRY) == 0
    ensures forall t | t in m.chains && PathOf(v, m, s) <= PathOf(v, m, t) :: t == s
  {
    hide EntryAt, FullName, IsLink, Linked, Housed, Header, Partitioned, Table, ListNames, Abs, PathOf, CountUsed;
    forall t | t in m.chains && PathOf(v, m, s) <= PathOf(v, m, t)
      ensures t == s
    {
      if t != s {
        if IsDir(EntryAt(v, s)) {
          BelowChild(v, m, s, t);
        } else {
          AbsAt(v, m);
          var u := PrefixDir(v, m, t, |PathOf(v, m, s)|);
        }
      }
    }
  }

  /** A proper prefix of an existing path is the path of a directory. */
  lemma PrefixDir(v: Volume, m: Meta, t: Slot, k: nat) returns (u: Slot)
    requires WF(v, m) && t in m.chains && 0 < k < |PathOf(v, m, t)|
    ensures u in m.chains && IsDir(EntryAt(v, u)) && PathOf(v, m, u) == PathOf(v, m, t)[..k]
  {
    hide EntryAt, FullName, IsLink, Linked, Housed, Header, Partitioned, Abs;
    var w := PrefixSlot(v, m, t, k + 1);
    assert PathOf(v, m, w)[..k] == DirPath(v, m, w.dir);
    assert w.dir != ROOT_CLUSTER_NUMBER;
    assert Hung(v, m, w.dir);
    u := m.home[w.dir];
  }

  /** `delete_recursive`. It removes exactly the subtree at the path, whatever its shape. */
  method DeleteRecursive(fs: Driver.Fat32, init_path: seq<char>)
    requires NUL !in init_path && Tokens(init_path, '/') != [] && fs.Shape()
    requires fs.Valid()
    requires Addressable(fs.V(), fs.m) && Fits(fs.V(), fs.m, init_path, Tokens(init_path, '/'))
    modifies fs`m, fs.disk, fs.cluster_map
    ensures fs.Valid() && Addressable(fs.V(), fs.m)
    ensures Pruned(old(fs.V()), old(fs.m), fs.V(), fs.m, Under(old(fs.V()), old(fs.m), Tokens(init_path, '/')))
    ensures var before := old(Abs(fs.V(), fs.m));
      Abs(fs.V(), fs.m) == map q | q in before && !(Tokens(init_path, '/') <= q) :: before[q]
    decreases if |init_path| < MAX_PATH then MAX_PATH - |init_path| else 0, 1
  {
    hide Abs;
    hide WF, Tokens, PathOf, EntryAt, Walk, FullName, IsDir, Addressable, Pruned, Fits, DeletedSlot, ListNames, Table;
    ghost var v0, m0, p := fs.V(), fs.m, Tokens(init_path, '/');
    var status, next_entry := fs.Stat(init_path);
    PrunedSame(v0, m0);
    if status != 0 {
      NothingUnder(v0, m0, p);
      PrunedAbs(v0, m0, v0, m0, p);
      return;
    }
    ghost var s := Lookup(v0, p).value;
    LookupIff(v0, m0, p, s);
    ghost var dead: set<Slot> := {};
    if next_entry.isDir && next_entry.size != 0 {
      var entries;
      status, entries := fs.DirStat(init_path);
      if status != 0 { return; }
      dead := DeleteEntries(fs, init_path, entries, v0, m0, s);
    } else {
      LeafUnder(v0, m0, s);
    }
    DeleteLast(fs, init_path, v0, m0, s, dead);
    PrunedAbs(v0, m0, fs.V(), fs.m, p);
  }

  /** The loop over the listing taken before anything is deleted. */
  method DeleteEntries(fs: Driver.Fat32, init_path: seq<char>, entries: seq<Driver.VfsEntry>, ghost v0: Volume,
                       ghost m0: Meta, ghost s: Slot)
    returns (ghost dead: set<Slot>)
    requires NUL !in init_path && fs.Shape() && fs.V() == v0 && fs.m == m0
    requires fs.Valid()
    requires Addressable(v0, m0) && s in m0.chains && PathOf(v0, m0, s) == Tokens(init_path, '/')
    requires IsDir(EntryAt(v0, s)) && Fits(v0, m0, init_path, Tokens(init_path, '/'))
    requires Driver.EntryNames(entries) == ListNames(Table(v0, ClusterOf(EntryAt(v0, s))), RESERVED_ENTRY)
    modifies fs`m, fs.disk, fs.cluster_map
    ensures fs.Valid() && Addressable(fs.V(), fs.m)
    ensures Pruned(v0, m0, fs.V(), fs.m, dead) && s !in dead && dead <= Under(v0, m0, Tokens(init_path, '/'))
    ensures forall t | t in m0.chains && PathOf(v0, m0, s) <= PathOf(v0, m0, t) && t != s :: t in dead
    decreases if |init_path| < MAX_PATH then MAX_PATH - |init_path| else 0, 0
  {
    hide WF, Tokens, PathOf, EntryAt, Walk, FullName, IsDir, Addressable, Pruned, Fits, ListNames, Table, ClusterOf;
    ghost var p, names := Tokens(init_path, '/'), Driver.EntryNames(entries);
    PrunedSame(v0, m0);
    dead := Dead(v0, m0, p, names[..0]);
    assert dead == {};
    for i := 0 to |entries|
      invariant fs.Valid() && Addressable(fs.V(), fs.m)
      invariant dead == Dead(v0, m0, p, names[..i]) && Pruned(v0, m0, fs.V(), fs.m, dead)
    {
      var n := entries[i].name;
      assert names[i] == n && names[..i + 1] == names[..i] + [n];
      ListedName(v0, m0, init_path, s, n);
      var child := Bounded(Bounded(Bounded(init_path) + ['/']) + n);
      assert child == init_path + ['/'] + n;
      TokensSnoc(init_path, n, '/');
      ghost var v1, m1 := fs.V(), fs.m;
      FitsNext(v0, m0, v1, m1, init_path, p, n, dead);
      DeleteRecursive(fs, child);
      PrunedTrans(v0, m0, v1, m1, fs.V(), fs.m, dead, Under(v1, m1, p + [n]));
      DeadNext(v0, m0, v1, m1, p, names[..i], n);
      dead := Dead(v0, m0, p, names[..i + 1]);
    }
    assert names[..|entries|] == names;
    AllBelowDead(v0, m0, s, p, names);
  }

  lemma AllBelowDead(v: Volume, m: Meta, s: Slot, p: Path, names: seq<seq<char>>)
    requires WF(v, m) && Addressable(v, m) && s in m.chains && PathOf(v, m, s) == p && IsDir(EntryAt(v, s))
    requires names == ListNames(Table(v, ClusterOf(EntryAt(v, s))), RESERVED_ENTRY)
    ensures forall t | t in m.chains && p <= PathOf(v, m, t) && t != s :: t in Dead(v, m, p, names)
    ensures s !in Dead(v, m, p, names) && Dead(v, m, p, names) <= Under(v, m, p)
  {
    hide WF, PathOf, EntryAt, FullName, Addressable, ListNames, Table, ClusterOf;
    forall t | t in m.chains && p <= PathOf(v, m, t) && t != s
      ensures t in Dead(v, m, p, names)
    {
      BelowChild(v, m, s, t);
    }
    forall t | t in Dead(v, m, p, names)
      ensures p <= PathOf(v, m, t)
    {
      var n :| n in names && p + [n] <= PathOf(v, m, t);
      assert p <= p + [n];
    }
  }

  /** The final delete, of an entry with nothing left below it. */
  method DeleteLast(fs: Driver.Fat32, init_path: seq<char>, ghost v0: Volume, ghost m0: Meta, ghost s: Slot,
                    ghost dead: set<Slot>)
    requires NUL !in init_path && Tokens(init_path, '/') != [] && fs.Shape() && WF(v0, m0)
    requires fs.Valid()
    requires Addressable(fs.V(), fs.m) && s in m0.chains && s !in dead && PathOf(v0, m0, s) == Tokens(init_path, '/')
    requires Pruned(v0, m0, fs.V(), fs.m, dead) && dead <= Under(v0, m0, Tokens(init_path, '/'))
    requires forall t | t in m0.chains && PathOf(v0, m0, s) <= PathOf(v0, m0, t) && t != s :: t in dead
    modifies fs`m, fs.disk, fs.cluster_map
    ensures fs.Valid() && Addressable(fs.V(), fs.m)
    ensures Pruned(v0, m0, fs.V(), fs.m, Under(v0, m0, Tokens(init_path, '/')))
  {
    hide WF, Tokens, PathOf, EntryAt, Walk, FullName, IsDir, Addressable, DeletedSlot, Removable, Kept;
    ghost var v1, m1, p := fs.V(), fs.m, Tokens(init_path, '/');
    assert s in m1.chains && PathOf(v1, m1, s) == p;
    LookupIff(v1, m1, p, s);
    LastRemovable(v0, m0, v1, m1, s, dead);
    var status := fs.DeleteVfs(init_path);
    DeletePrunes(v1, m1, fs.V(), fs.m, s);
    PrunedTrans(v0, m0, v1, m1, fs.V(), fs.m, dead, {s});
    assert dead + {s} == Under(v0, m0, p);
  }

  lemma LastRemovable(v0: Volume, m0: Meta, v: Volume, m: Meta, s: Slot, dead: set<Slot>)
    requires WF(v0, m0) && WF(v, m) && Pruned(v0, m0, v, m, dead) && s in m.chains
    requires forall t | t in m0.chains && PathOf(v0, m0, s) <= PathOf(v0, m0, t) && t != s :: t in dead
    ensures Removable(v, m, s)
  {
    hide WF, PathOf, EntryAt, FullName, IsDir, Kept;
    forall t | t in m.chains
      ensures t.dir !in m.chains[s]
    {
      SlotDir(v, m, t);
      if t.dir in m.chains[s] {
        if IsDir(EntryAt(v, s)) {
          ChildPath(v, m, s, t);
        } else {
          var k :| 0 <= k < |m.chains[s]| && m.chains[s][k] == t.dir;
          FileCluster(v, m, s, k);
        }
      }
    }
  }
}
