/** The abstract file system a well-formed volume represents: a map from paths to directories and
    byte sequences, and path lookup on the tables as the walk of that tree. */
module FatTree {
  import opened FatLayout
  import opened FatVolume

  type Path = seq<seq<char>>

  datatype Obj = Directory | File(bytes: seq<char>)

  type FileSystem = map<Path, Obj>

  datatype Option<T> = None | Some(value: T)

  // ---------- paths of slots ----------

  ghost function PathOf(v: Volume, m: Meta, s: Slot): (p: Path)
    requires WF(v, m) && s in m.chains
    ensures p != []
    decreases m.depth[s.dir]
  {
    DirPath(v, m, s.dir) + [FullName(EntryAt(v, s))]
  }

  ghost function DirPath(v: Volume, m: Meta, d: nat): Path
    requires WF(v, m) && d in m.depth
    decreases m.depth[d], 0
  {
    if d == ROOT_CLUSTER_NUMBER then []
    else
      assert Hung(v, m, d);
      PathOf(v, m, m.home[d])
  }

  /** Names are usable in paths, and no directory lists the same full name twice. */
  ghost predicate Addressable(v: Volume, m: Meta) {
    && (forall s {:trigger EntryAt(v, s)} | s in m.chains :: PlainName(FullName(EntryAt(v, s))))
    && (forall s, t {:trigger EntryAt(v, s), EntryAt(v, t)} |
          s in m.chains && t in m.chains && s.dir == t.dir
            && FullName(EntryAt(v, s)) == FullName(EntryAt(v, t)) :: s == t)
  }

  predicate PlainName(n: seq<char>) { n != [] && '/' !in n }

  // ---------- lookup ----------

  predicate Names(e: DirEntry, name: seq<char>) { Used(e) && FullName(e) == name }

  /** Index of the first used entry with this full name, from `i` on; the table length if none. */
  function FindName(t: DirTable, name: seq<char>, i: nat): (r: nat)
    requires i <= MAX_DIR_TABLE_ENTRY
    ensures i <= r <= MAX_DIR_TABLE_ENTRY
    ensures r < MAX_DIR_TABLE_ENTRY ==> Names(t[r], name)
    ensures forall j :: i <= j < r ==> !Names(t[j], name)
    decreases MAX_DIR_TABLE_ENTRY - i
  {
    if i == MAX_DIR_TABLE_ENTRY || Names(t[i], name) then i else FindName(t, name, i + 1)
  }

  function CountUsed(t: DirTable, i: nat): (n: nat)
    requires i <= MAX_DIR_TABLE_ENTRY
    ensures n == 0 <==> forall j :: i <= j < MAX_DIR_TABLE_ENTRY ==> !Used(t[j])
    decreases MAX_DIR_TABLE_ENTRY - i
  {
    if i == MAX_DIR_TABLE_ENTRY then 0 else (if Used(t[i]) then 1 else 0) + CountUsed(t, i + 1)
  }

  /** Full names of the used entries, in table order. */
  function ListNames(t: DirTable, i: nat): (r: seq<seq<char>>)
    requires i <= MAX_DIR_TABLE_ENTRY
    ensures |r| == CountUsed(t, i)
    decreases MAX_DIR_TABLE_ENTRY - i
  {
    if i == MAX_DIR_TABLE_ENTRY then []
    else if Used(t[i]) then [FullName(t[i])] + ListNames(t, i + 1)
    else ListNames(t, i + 1)
  }

  lemma {:induction false} ListNamesHas(t: DirTable, i: nat, n: seq<char>)
    requires i <= MAX_DIR_TABLE_ENTRY
    ensures n in ListNames(t, i) <==> exists j :: i <= j < MAX_DIR_TABLE_ENTRY && Names(t[j], n)
    decreases MAX_DIR_TABLE_ENTRY - i
  {
    hide FullName;
    if i < MAX_DIR_TABLE_ENTRY {
      ListNamesHas(t, i + 1, n);
      assert Names(t[i], n) ==> n in ListNames(t, i);
    }
  }

  /** The walk of `get_entry_with_parent_cluster_and_index` from the directory at cluster `d`. */
  function Walk(v: Volume, d: nat, p: Path): Option<Slot>
    requires p != []
    decreases |p|
  {
    var i := FindName(Table(v, d), p[0], RESERVED_ENTRY);
    if i == MAX_DIR_TABLE_ENTRY then None
    else if |p| == 1 then Some(Slot(d, i))
    else if !IsDir(Table(v, d)[i]) then None
    else Walk(v, ClusterOf(Table(v, d)[i]), p[1..])
  }

  function Lookup(v: Volume, p: Path): Option<Slot> {
    if p == [] then None else Walk(v, ROOT_CLUSTER_NUMBER, p)
  }

  lemma FoundSlot(v: Volume, m: Meta, d: nat, name: seq<char>)
    requires WF(v, m) && d in m.depth
    ensures d < |v.disk|
    ensures var i := FindName(Table(v, d), name, RESERVED_ENTRY);
      i < MAX_DIR_TABLE_ENTRY ==>
        (Slot(d, i) in m.chains && EntryAt(v, Slot(d, i)) == Table(v, d)[i]
         && PathOf(v, m, Slot(d, i)) == DirPath(v, m, d) + [name])
  {
    assert Linked(v, m, d);
    hide DecodeTable, FullName, IsLink;
    var i := FindName(Table(v, d), name, RESERVED_ENTRY);
    if i < MAX_DIR_TABLE_ENTRY {
      assert EntryAt(v, Slot(d, i)) == Table(v, d)[i];
    }
  }

  lemma ChildDir(v: Volume, m: Meta, s: Slot)
    requires WF(v, m) && s in m.chains && IsDir(EntryAt(v, s))
    ensures ClusterOf(EntryAt(v, s)) in m.depth && ClusterOf(EntryAt(v, s)) != ROOT_CLUSTER_NUMBER
    ensures m.chains[s] == [ClusterOf(EntryAt(v, s))]
    ensures DirPath(v, m, ClusterOf(EntryAt(v, s))) == PathOf(v, m, s)
    ensures m.depth[ClusterOf(EntryAt(v, s))] == m.depth[s.dir] + 1
  {
    hide EntryAt, ClusterOf, FullName, IsLink;
    assert Housed(v, m, s);
    assert Owns(m, s, 0);
    assert Hung(v, m, m.chains[s][0]);
  }

  /** What a lookup returns is a used slot whose path is the path looked up. */
  lemma {:induction false} WalkSound(v: Volume, m: Meta, d: nat, p: Path)
    requires WF(v, m) && d in m.depth && p != []
    ensures var r := Walk(v, d, p);
      r.Some? ==> r.value in m.chains && PathOf(v, m, r.value) == DirPath(v, m, d) + p
    decreases |p|
  {
    hide Table, PathOf, DirPath, FullName, ClusterOf, WF, EntryAt, FindName;
    FoundSlot(v, m, d, p[0]);
    var i := FindName(Table(v, d), p[0], RESERVED_ENTRY);
    if i < MAX_DIR_TABLE_ENTRY {
      var s := Slot(d, i);
      if |p| == 1 {
        assert p == [p[0]];
      } else if IsDir(Table(v, d)[i]) {
        ChildDir(v, m, s);
        WalkSound(v, m, ClusterOf(Table(v, d)[i]), p[1..]);
        assert DirPath(v, m, d) + p == DirPath(v, m, d) + [p[0]] + p[1..];
      }
    }
  }

  lemma {:induction false} WalkSnoc(v: Volume, d: nat, p: Path, n: seq<char>)
    requires p != []
    ensures Walk(v, d, p + [n]) ==
      match Walk(v, d, p)
      case None => None
      case Some(s) => if IsDir(Table(v, s.dir)[s.idx % MAX_DIR_TABLE_ENTRY])
                      then Walk(v, ClusterOf(Table(v, s.dir)[s.idx % MAX_DIR_TABLE_ENTRY]), [n]) else None
    decreases |p|
  {
    hide Table, Names, ClusterOf;
    hide FindName;
    var i := FindName(Table(v, d), p[0], RESERVED_ENTRY);
    assert (p + [n])[0] == p[0] && (p + [n])[1..] == p[1..] + [n];
    if |p| == 1 {
      assert p[1..] + [n] == [n];
    } else if i < MAX_DIR_TABLE_ENTRY && IsDir(Table(v, d)[i]) {
      WalkSnoc(v, ClusterOf(Table(v, d)[i]), p[1..], n);
    }
  }

  lemma FindUnique(v: Volume, m: Meta, s: Slot)
    requires WF(v, m) && Addressable(v, m) && s in m.chains
    ensures FindName(Table(v, s.dir), FullName(EntryAt(v, s)), RESERVED_ENTRY) == s.idx < MAX_DIR_TABLE_ENTRY
    ensures EntryAt(v, s) == Table(v, s.dir)[s.idx]
  {
    hide WF, EntryAt, Table, FullName;
    SlotOfTable(v, m, s);
    var i := FindName(Table(v, s.dir), FullName(EntryAt(v, s)), RESERVED_ENTRY);
    assert Names(Table(v, s.dir)[s.idx], FullName(EntryAt(v, s)));
    UsedSlot(v, m, s.dir, i);
    assert EntryAt(v, Slot(s.dir, i)) == Table(v, s.dir)[i];
  }

  lemma SlotOfTable(v: Volume, m: Meta, s: Slot)
    requires WF(v, m) && s in m.chains
    ensures s.dir in m.depth && s.dir < CLUSTER_MAP_SIZE && RESERVED_ENTRY <= s.idx < MAX_DIR_TABLE_ENTRY
    ensures EntryAt(v, s) == Table(v, s.dir)[s.idx] && Used(EntryAt(v, s))
  {
    assert Linked(v, m, s.dir);
    hide DecodeTable, IsLink, Used;
  }

  lemma UsedSlot(v: Volume, m: Meta, d: nat, i: nat)
    requires WF(v, m) && d in m.depth && d < CLUSTER_MAP_SIZE && RESERVED_ENTRY <= i < MAX_DIR_TABLE_ENTRY
    requires Used(Table(v, d)[i])
    ensures Slot(d, i) in m.chains && EntryAt(v, Slot(d, i)) == Table(v, d)[i]
  {
    hide DecodeTable, IsLink, Used;
  }

  lemma WalkOne(v: Volume, m: Meta, s: Slot)
    requires WF(v, m) && Addressable(v, m) && s in m.chains
    ensures Walk(v, s.dir, [FullName(EntryAt(v, s))]) == Some(s)
  {
    hide Table, FullName, ClusterOf, EntryAt, WF, Addressable;
    FindUnique(v, m, s);
  }

  /** Looking up the path of a slot finds that slot. */
  lemma {:induction false} WalkComplete(v: Volume, m: Meta, s: Slot)
    requires WF(v, m) && Addressable(v, m) && s in m.chains
    ensures Walk(v, ROOT_CLUSTER_NUMBER, PathOf(v, m, s)) == Some(s)
    decreases m.depth[s.dir]
  {
    hide Table, FullName, ClusterOf, EntryAt, IsLink, Walk, FindName, Addressable, Linked, Housed;
    WalkOne(v, m, s);
    var name := FullName(EntryAt(v, s));
    if s.dir == ROOT_CLUSTER_NUMBER {
      assert PathOf(v, m, s) == [name];
    } else {
      assert Hung(v, m, s.dir);
      var t := m.home[s.dir];
      WalkComplete(v, m, t);
      WalkSnoc(v, ROOT_CLUSTER_NUMBER, PathOf(v, m, t), name);
      FindUnique(v, m, t);
      ChildDir(v, m, t);
    }
  }

  /** Path lookup agrees with the tree: it answers `s` exactly on the path of `s`. */
  lemma LookupIff(v: Volume, m: Meta, p: Path, s: Slot)
    requires WF(v, m) && Addressable(v, m) && p != []
    ensures Walk(v, ROOT_CLUSTER_NUMBER, p) == Some(s) <==> s in m.chains && PathOf(v, m, s) == p
  {
    hide EntryAt, Table, FullName, IsLink, Walk;
    WalkSound(v, m, ROOT_CLUSTER_NUMBER, p);
    if s in m.chains && PathOf(v, m, s) == p {
      WalkComplete(v, m, s);
    }
  }

  // ---------- the abstract file system ----------

  /** Byte `x` of the data reached through a chain. */
  function ByteAt(disk: seq<Cluster>, ch: seq<nat>, x: nat): char {
    if x / CLUSTER_SIZE < |ch| && ch[x / CLUSTER_SIZE] < |disk|
    then disk[ch[x / CLUSTER_SIZE]][x % CLUSTER_SIZE] else NUL
  }

  ghost function Content(v: Volume, ch: seq<nat>, size: nat): (r: seq<char>)
    ensures |r| == size
  {
    seq(size, x requires 0 <= x => ByteAt(v.disk, ch, x))
  }

  ghost function ObjOf(v: Volume, m: Meta, s: Slot): Obj
    requires s in m.chains
  {
    if IsDir(EntryAt(v, s)) then Directory else File(Content(v, m.chains[s], EntryAt(v, s).filesize))
  }

  ghost function ObjAt(v: Volume, m: Meta, p: Path): Obj {
    if p == [] then Directory
    else
      match Walk(v, ROOT_CLUSTER_NUMBER, p)
      case Some(s) => if s in m.chains then ObjOf(v, m, s) else Directory
      case None => Directory
  }

  ghost function Paths(v: Volume, m: Meta): set<Path>
    requires WF(v, m)
  {
    set s | s in m.chains :: PathOf(v, m, s)
  }

  /** The file system represented by the volume. The root is implicit. */
  ghost function Abs(v: Volume, m: Meta): FileSystem
    requires WF(v, m)
  {
    map p | p in Paths(v, m) :: ObjAt(v, m, p)
  }

  /** `Abs` lists every used slot once, under its own path, and nothing else. */
  lemma AbsAt(v: Volume, m: Meta)
    requires WF(v, m) && Addressable(v, m)
    ensures forall s {:trigger PathOf(v, m, s)} | s in m.chains ::
      PathOf(v, m, s) in Abs(v, m) && Abs(v, m)[PathOf(v, m, s)] == ObjOf(v, m, s)
    ensures forall p | p in Abs(v, m) :: exists s :: s in m.chains && PathOf(v, m, s) == p
    ensures forall s, t {:trigger PathOf(v, m, s), PathOf(v, m, t)} |
      s in m.chains && t in m.chains && PathOf(v, m, s) == PathOf(v, m, t) :: s == t
  {
    hide PathOf, Walk, WF, Addressable, ObjOf;
    forall s | s in m.chains
      ensures Walk(v, ROOT_CLUSTER_NUMBER, PathOf(v, m, s)) == Some(s)
    {
      WalkComplete(v, m, s);
    }
  }

  // ---------- how updates move the abstract file system ----------

  /** Paths are unchanged where names and the hanging of directories are unchanged. */
  lemma {:induction false} PathFrame(v: Volume, m: Meta, v': Volume, m': Meta, t: Slot)
    requires WF(v, m) && WF(v', m') && t in m.chains && t in m'.chains
    requires forall u {:trigger EntryAt(v', u)} | u in m.chains
      && u in m'.chains :: FullName(EntryAt(v', u)) == FullName(EntryAt(v, u))
    requires forall d {:trigger m'.home[d]} | d in m.home && d in m'.home :: m'.home[d] == m.home[d]
    ensures PathOf(v', m', t) == PathOf(v, m, t)
    decreases m.depth[t.dir]
  {
    hide FullName, EntryAt, Linked, Housed;
    if t.dir != ROOT_CLUSTER_NUMBER {
      assert Hung(v, m, t.dir) && Hung(v', m', t.dir);
      PathFrame(v, m, v', m', m.home[t.dir]);
    }
  }

  /** No used slot of directory `d` has this full name. */
  ghost predicate Unlisted(v: Volume, m: Meta, d: nat, name: seq<char>) {
    forall u {:trigger EntryAt(v, u)} | u in m.chains && u.dir == d :: FullName(EntryAt(v, u)) != name
  }

  /** Where entries keep their names and kinds, `Addressable` is kept and so are all paths. */
  ghost predicate SameNames(v: Volume, m: Meta, v': Volume, m': Meta) {
    && m'.chains.Keys == m.chains.Keys && m'.depth == m.depth
    && (forall d {:trigger m'.home[d]} | d in m.home && d in m'.home :: m'.home[d] == m.home[d])
    && (forall u {:trigger EntryAt(v', u)} | u in m.chains :: SameButSize(EntryAt(v, u), EntryAt(v', u)))
  }

  lemma SameNamesAt(v: Volume, m: Meta, v': Volume, m': Meta, s: Slot)
    requires SameNames(v, m, v', m') && s in m.chains
    ensures s in m'.chains && IsDir(EntryAt(v', s)) == IsDir(EntryAt(v, s))
  {
    hide EntryAt;
    assert SameButSize(EntryAt(v, s), EntryAt(v', s));
  }

  lemma SameNamesAddressable(v: Volume, m: Meta, v': Volume, m': Meta)
    requires WF(v, m) && WF(v', m') && SameNames(v, m, v', m')
    ensures Addressable(v, m) <==> Addressable(v', m')
    ensures forall t {:trigger PathOf(v', m', t)} | t in m.chains :: PathOf(v', m', t) == PathOf(v, m, t)
  {
    hide FullName, EntryAt, WF;
    forall u | u in m.chains
      ensures FullName(EntryAt(v', u)) == FullName(EntryAt(v, u))
    {
      SameButSizeReads(EntryAt(v, u), EntryAt(v', u));
    }
    forall t | t in m.chains
      ensures PathOf(v', m', t) == PathOf(v, m, t)
    {
      PathFrame(v, m, v', m', t);
    }
  }

  /** Rewriting the data of one file changes exactly that file in the abstract file system. */
  lemma AbsWrite(v: Volume, m: Meta, v': Volume, m': Meta, s: Slot)
    requires WF(v, m) && WF(v', m') && SameNames(v, m, v', m') && Addressable(v, m) && s in m.chains
    requires forall t {:trigger ObjOf(v', m', t)} | t in m.chains && t != s :: ObjOf(v', m', t) == ObjOf(v, m, t)
    ensures Addressable(v', m')
    ensures Abs(v', m') == Abs(v, m)[PathOf(v, m, s) := ObjOf(v', m', s)]
  {
    hide FullName, EntryAt, WF, Addressable, ObjOf, SameNames, PathOf, DirPath, Abs;
    SameNamesAddressable(v, m, v', m');
    SameNamesKeys(v, m, v', m');
    AbsAt(v, m);
    AbsAt(v', m');
    var a, a' := Abs(v, m), Abs(v', m');
    forall p
      ensures p in a' <==> p in a
    {
      if p in a {
        var t :| t in m.chains && PathOf(v, m, t) == p;
        assert PathOf(v', m', t) == p;
      }
      if p in a' {
        var t :| t in m'.chains && PathOf(v', m', t) == p;
        assert PathOf(v, m, t) == p;
      }
    }
    forall p | p in a'
      ensures a'[p] == a[PathOf(v, m, s) := ObjOf(v', m', s)][p]
    {
      var t :| t in m'.chains && PathOf(v', m', t) == p;
    }
  }

  lemma SameNamesKeys(v: Volume, m: Meta, v': Volume, m': Meta)
    requires SameNames(v, m, v', m')
    ensures m'.chains.Keys == m.chains.Keys
  {
  }

  /** Adding one entry: it and nothing else appears, at its directory's path followed by its name. */
  lemma AbsCreate(v: Volume, m: Meta, v': Volume, m': Meta, s: Slot)
    requires WF(v, m) && WF(v', m') && Addressable(v, m)
    requires s !in m.chains && m'.chains.Keys == m.chains.Keys + {s} && s.dir in m.depth && s.dir in m'.depth
    requires forall d | d in m.home :: d in m'.home && m'.home[d] == m.home[d]
    requires forall t {:trigger EntryAt(v', t)} | t in m.chains :: EntryAt(v', t) == EntryAt(v, t)
    requires forall t {:trigger ObjOf(v', m', t)} | t in m.chains :: ObjOf(v', m', t) == ObjOf(v, m, t)
    requires PlainName(FullName(EntryAt(v', s))) && Unlisted(v, m, s.dir, FullName(EntryAt(v', s)))
    ensures Addressable(v', m') && PathOf(v', m', s) == DirPath(v, m, s.dir) + [FullName(EntryAt(v', s))]
    ensures PathOf(v', m', s) !in Abs(v, m)
    ensures Abs(v', m') == Abs(v, m)[PathOf(v', m', s) := ObjOf(v', m', s)]
  {
    hide FullName, EntryAt, ObjOf, Linked, Housed, Partitioned, Abs;
    forall t | t in m.chains
      ensures PathOf(v', m', t) == PathOf(v, m, t)
    {
      PathFrame(v, m, v', m', t);
    }
    if s.dir != ROOT_CLUSTER_NUMBER {
      assert Hung(v, m, s.dir) && Hung(v', m', s.dir);
    }
    AbsCreateMap(v, m, v', m', s);
  }

  lemma AbsCreateMap(v: Volume, m: Meta, v': Volume, m': Meta, s: Slot)
    requires WF(v, m) && WF(v', m') && Addressable(v, m) && Addressable(v', m')
    requires s !in m.chains && m'.chains.Keys == m.chains.Keys + {s}
    requires forall t {:trigger ObjOf(v', m', t)} | t in m.chains :: ObjOf(v', m', t) == ObjOf(v, m, t)
    requires forall t {:trigger PathOf(v', m', t)} | t in m.chains :: PathOf(v', m', t) == PathOf(v, m, t)
    ensures PathOf(v', m', s) !in Abs(v, m)
    ensures Abs(v', m') == Abs(v, m)[PathOf(v', m', s) := ObjOf(v', m', s)]
  {
    hide FullName, EntryAt, ObjOf, PathOf, DirPath, WF, Addressable, Abs;
    AbsAt(v, m);
    AbsAt(v', m');
    var a, a', q := Abs(v, m), Abs(v', m'), PathOf(v', m', s);
    if q in a {
      var t :| t in m.chains && PathOf(v, m, t) == q;
      assert PathOf(v', m', t) == q;
    }
    forall p
      ensures p in a' <==> p in a || p == q
    {
      if p in a {
        var t :| t in m.chains && PathOf(v, m, t) == p;
        assert PathOf(v', m', t) == p;
      }
    }
    forall p | p in a'
      ensures a'[p] == a[q := ObjOf(v', m', s)][p]
    {
      var t :| t in m'.chains && PathOf(v', m', t) == p;
    }
  }

  /** Removing one entry: its path and nothing else disappears. */
  lemma AbsRemove(v: Volume, m: Meta, v': Volume, m': Meta, s: Slot)
    requires WF(v, m) && WF(v', m') && Addressable(v, m)
    requires s in m.chains && m'.chains.Keys == m.chains.Keys - {s}
    requires forall d {:trigger m'.home[d]} | d in m'.home && d in m.home :: m'.home[d] == m.home[d]
    requires forall t {:trigger EntryAt(v', t)} | t in m'.chains :: EntryAt(v', t) == EntryAt(v, t)
    requires forall t {:trigger ObjOf(v', m', t)} | t in m'.chains :: ObjOf(v', m', t) == ObjOf(v, m, t)
    ensures Addressable(v', m')
    ensures Abs(v', m') == Abs(v, m) - {PathOf(v, m, s)}
  {
    hide FullName, EntryAt, ObjOf, PathOf, DirPath, WF, Abs;
    forall t | t in m'.chains
      ensures PathOf(v', m', t) == PathOf(v, m, t)
    {
      PathFrame(v, m, v', m', t);
    }
    assert Addressable(v', m');
    AbsCreateMap(v', m', v, m, s);
    var a, a', q := Abs(v, m), Abs(v', m'), PathOf(v, m, s);
    assert a == a'[q := ObjOf(v, m, s)] && q !in a';
  }

  lemma FreshAbs(v: Volume)
    requires WF(v, FRESH_META)
    ensures Addressable(v, FRESH_META) && Abs(v, FRESH_META) == map[]
  {
  }
}
