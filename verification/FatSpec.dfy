/** What the driver's operations do to the abstract file system. */
module FatSpec {
  import opened FatLayout
  import opened FatVolume
  import opened FatTree
  import opened FatFile
  import opened FatNames
  import opened CStrings

  // ---------- create ----------

  lemma CreatedFacts(v0: Volume, m0: Meta, v: Volume, m: Meta, s: Slot, path: seq<char>, name: seq<char>,
                     ext: seq<char>, aFile: bool)
    requires WF(v0, m0) && CreatedAs(v0, m0, v, m, s, path, name, ext, aFile)
    ensures WF(v, m) && s !in m0.chains && m.chains.Keys == m0.chains.Keys + {s}
    ensures s.dir in m0.depth && s.dir in m.depth && DirPath(v0, m0, s.dir) == Tokens(path, '/')
    ensures forall d | d in m0.home :: d in m.home && m.home[d] == m0.home[d]
    ensures forall t {:trigger EntryAt(v, t)} | t in m0.chains :: EntryAt(v, t) == EntryAt(v0, t)
    ensures FullName(EntryAt(v, s)) == if aFile then Joined(name, ext) else name
    ensures ObjOf(v, m, s) == if aFile then File([]) else Directory
  {
    hide EntryAt, NewEntry, CreateEntry, FullName, Tokens, IsLink, Linked, Hung, Housed, IsChain, Walk;
    var f := m.chains[s][0];
    var e0 := EntryAt(v0, s);
    var e := NewEntry(e0, name, ext, aFile, f);
    NewEntryReads(e0, name, ext, aFile, f);
    CreateKeepsWF(v0, m0, s, e, f);
    CreateEntries(v0, m0, s, e, f);
    CreateFresh(v0, m0, s, e, f);
    TargetDirPath(v0, m0, Tokens(path, '/'));
    forall t | t in m0.chains
      ensures EntryAt(v, t) == EntryAt(v0, t)
    {
      SlotDir(v0, m0, t);
    }
    assert EntryAt(v, s) == e;
  }

  lemma CreatedObjs(v0: Volume, m0: Meta, v: Volume, m: Meta, s: Slot, path: seq<char>, name: seq<char>,
                    ext: seq<char>, aFile: bool, t: Slot)
    requires WF(v0, m0) && CreatedAs(v0, m0, v, m, s, path, name, ext, aFile) && t in m0.chains
    ensures Kept(v0, m0, v, m, t)
  {
    hide EntryAt, NewEntry, FullName, Tokens, IsLink, Hung, Walk, EmptyTable, EncodeTable, EncodeFat, Tree, Header,
         FsSignature;
    CreatedFacts(v0, m0, v, m, s, path, name, ext, aFile);
    var f := m.chains[s][0];
    SlotDir(v0, m0, t);
    if !IsDir(EntryAt(v0, t)) {
      forall k | 0 <= k < |m0.chains[t]|
        ensures m0.chains[t][k] != f && m0.chains[t][k] != s.dir && m0.chains[t][k] >= 3
      {
        FileCluster(v0, m0, t, k);
        assert Owns(m0, t, k);
      }
      CreateDisk(v0, s, NewEntry(EntryAt(v0, s), name, ext, aFile, f), f);
    }
  }

  lemma CreateDisk(v: Volume, s: Slot, e: DirEntry, f: nat)
    requires s.dir < CLUSTER_MAP_SIZE && s.idx < MAX_DIR_TABLE_ENTRY && f < CLUSTER_MAP_SIZE
    ensures |CreateEntry(v, s, e, f).disk| == |v.disk|
    ensures forall c :: 0 <= c < |v.disk| && c != s.dir && c != f && c != FAT_CLUSTER_NUMBER ==>
      CreateEntry(v, s, e, f).disk[c] == v.disk[c]
  {
    hide EntryAt, EncodeTable, EncodeFat, EmptyTable;
  }

  /** Creating an entry keeps names usable exactly when its path is new and its name is plain; it then adds
      one empty object at that path and changes nothing else. */
  lemma CreateAbs(v0: Volume, m0: Meta, v: Volume, m: Meta, s: Slot, path: seq<char>, name: seq<char>, ext: seq<char>,
                  aFile: bool)
    requires CreatedAs(v0, m0, v, m, s, path, name, ext, aFile)
    requires WF(v0, m0) && Addressable(v0, m0)
    ensures WF(v, m)
    ensures var full := if aFile then Joined(name, ext) else name;
      var q := Tokens(path, '/') + [full];
      (Addressable(v, m) <==> PlainName(full) && q !in Abs(v0, m0))
      && (Addressable(v, m) ==>
            PathOf(v, m, s) == q && Abs(v, m) == Abs(v0, m0)[q := if aFile then File([]) else Directory])
  {
    hide EntryAt, FullName, Tokens, IsLink, Linked, Hung, Housed, CreatedAs, Abs, Partitioned, Header, PathOf, DirPath,
         ObjOf;
    CreatedFacts(v0, m0, v, m, s, path, name, ext, aFile);
    var full := if aFile then Joined(name, ext) else name;
    var q := Tokens(path, '/') + [full];
    AbsAt(v0, m0);
    UnlistedIff(v0, m0, s.dir, full);
    if PlainName(full) && q !in Abs(v0, m0) {
      forall t | t in m0.chains
        ensures ObjOf(v, m, t) == ObjOf(v0, m0, t)
      {
        CreatedObjs(v0, m0, v, m, s, path, name, ext, aFile, t);
        KeptObj(v0, m0, v, m, t);
      }
      AbsCreate(v0, m0, v, m, s);
    } else if q in Abs(v0, m0) {
      var u :| u in m0.chains && u.dir == s.dir && FullName(EntryAt(v0, u)) == full;
      assert EntryAt(v, u) == EntryAt(v0, u);
      assert u != s;
      assert !Addressable(v, m);
    } else {
      assert FullName(EntryAt(v, s)) == full && s in m.chains;
      assert !Addressable(v, m);
    }
  }

  /** A directory lists a full name exactly when that path exists. */
  lemma UnlistedIff(v: Volume, m: Meta, d: nat, full: seq<char>)
    requires WF(v, m) && Addressable(v, m) && d in m.depth
    ensures Unlisted(v, m, d, full) <==> DirPath(v, m, d) + [full] !in Abs(v, m)
    ensures !Unlisted(v, m, d, full) ==> exists u :: u in m.chains && u.dir == d && FullName(EntryAt(v, u)) == full
  {
    hide EntryAt, FullName, IsLink, Linked, Housed, Partitioned, Header, ObjOf;
    AbsAt(v, m);
    var q := DirPath(v, m, d) + [full];
    if q in Abs(v, m) {
      var u :| u in m.chains && PathOf(v, m, u) == q;
      SlotDir(v, m, u);
      assert q[..|q| - 1] == DirPath(v, m, d) && q[|q| - 1] == full;
      DirPathInjective(v, m, u.dir, d);
    }
    if u :| u in m.chains && u.dir == d && FullName(EntryAt(v, u)) == full {
      assert PathOf(v, m, u) == q;
    }
  }

  lemma DirPathInjective(v: Volume, m: Meta, a: nat, b: nat)
    requires WF(v, m) && Addressable(v, m) && a in m.depth && b in m.depth && DirPath(v, m, a) == DirPath(v, m, b)
    ensures a == b
  {
    hide EntryAt, FullName, IsLink, Linked, Housed, Header, PathOf;
    AbsAt(v, m);
    if a != ROOT_CLUSTER_NUMBER { assert Hung(v, m, a); }
    if b != ROOT_CLUSTER_NUMBER { assert Hung(v, m, b); }
    if a != ROOT_CLUSTER_NUMBER && b != ROOT_CLUSTER_NUMBER {
      assert m.home[a] == m.home[b];
    }
  }

  /** The path a file made by `mkfile(path)` is stored under. */
  function FilePath(path: seq<char>): Path {
    Tokens(ParentPart(path), '/') + [Joined(Stem(NamePart(path)), Extension(NamePart(path)))]
  }

  /** A successful `mkfile`. Names stay unique exactly when no entry with the full name existed, which the
      driver's own check only guarantees without an extension; the file is then found at the path given
      exactly when its name has at most one inner dot. */
  lemma MkFileAbs(v0: Volume, m0: Meta, v: Volume, m: Meta, s: Slot, path: seq<char>)
    requires Tokens(NamePart(path), '.') != []
    requires WF(v0, m0) && Addressable(v0, m0)
    requires CreatedAs(v0, m0, v, m, s, ParentPart(path), Stem(NamePart(path)), Extension(NamePart(path)), true)
    ensures WF(v, m)
    ensures Addressable(v, m) <==> FilePath(path) !in Abs(v0, m0)
    ensures Addressable(v, m) ==>
      Abs(v, m) == Abs(v0, m0)[FilePath(path) := File([])]
      && (Lookup(v, Tokens(path, '/')) == Some(s) <==> OneExtension(NamePart(path)))
  {
    hide EntryAt, FullName, Tokens, IsLink, CreatedAs, Abs, PathOf, Walk, WF, Addressable, LastSlash, Span,
         OneExtension;
    var n := NamePart(path);
    CreateAbs(v0, m0, v, m, s, ParentPart(path), Stem(n), Extension(n), true);
    CreatedFacts(v0, m0, v, m, s, ParentPart(path), Stem(n), Extension(n), true);
    StemPlain(n);
    PathParts(path);
    SplitJoin(n);
    if Addressable(v, m) {
      if n == [] { NoTokens(); }
      LookupIff(v, m, Tokens(path, '/'), s);
      var a := Tokens(ParentPart(path), '/');
      assert a + [n] == a + [Joined(Stem(n), Extension(n))] <==> n == Joined(Stem(n), Extension(n)) by {
        assert (a + [n])[|a|] == n && (a + [Joined(Stem(n), Extension(n))])[|a|] == Joined(Stem(n), Extension(n));
      }
    }
  }

  lemma NoTokens()
    ensures Tokens([], '.') == []
  {
  }

  /** Without an extension the driver's duplicate check is enough. */
  lemma CheckSuffices(v: Volume, m: Meta, path: seq<char>, name: seq<char>)
    requires WF(v, m) && Addressable(v, m) && MayCreate(v, path, name)
    ensures Tokens(path, '/') + [name] !in Abs(v, m)
  {
    hide EntryAt, FullName, IsLink, Tokens, Walk, ClusterOf, Abs, PathOf, DirPath, WF, Addressable, Table;
    var d := TargetDir(v, Tokens(path, '/')).value;
    TargetDirPath(v, m, Tokens(path, '/'));
    UnlistedIff(v, m, d, name);
    forall u | u in m.chains && u.dir == d
      ensures FullName(EntryAt(v, u)) != name
    {
      SlotDir(v, m, u);
      EntryTable(v, u);
      assert !Names(Table(v, d)[u.idx], name);
    }
  }

  /** Room for one more entry in the directory `path` leads to. */
  predicate HasRoom(v: Volume, path: seq<char>) {
    && path != "." && path != ".." && TargetDir(v, Tokens(path, '/')).Some?
    && (exists i :: RESERVED_ENTRY <= i < MAX_DIR_TABLE_ENTRY
          && !Used(Table(v, TargetDir(v, Tokens(path, '/')).value)[i]))
    && (exists c :: 0 <= c < CLUSTER_MAP_SIZE && v.fat[c] == FAT32_FAT_EMPTY_ENTRY)
  }

  /** The check looks for the bare stem only: it lets pass every name whose stem alone is no entry. */
  lemma StemUnlistedPasses(v: Volume, m: Meta, parent: seq<char>, stem: seq<char>)
    requires WF(v, m) && Addressable(v, m) && HasRoom(v, parent) && Tokens(parent, '/') + [stem] !in Abs(v, m)
    ensures MayCreate(v, parent, stem)
  {
    hide EntryAt, FullName, IsLink, Tokens, Walk, ClusterOf, Abs, PathOf, DirPath, WF, Addressable, Table, FindName,
         Used;
    var d := TargetDir(v, Tokens(parent, '/')).value;
    TargetDirPath(v, m, Tokens(parent, '/'));
    FoundSlot(v, m, d, stem);
    AbsAt(v, m);
  }

  /** So where a file with an extension exists already, mkfile makes a second one of the same name, and names are no
      longer usable. */
  lemma DuplicateEscapes(v0: Volume, m0: Meta, path: seq<char>)
    requires Tokens(NamePart(path), '.') != [] && WF(v0, m0) && Addressable(v0, m0) && HasRoom(v0, ParentPart(path))
    requires FilePath(path) in Abs(v0, m0) && Tokens(ParentPart(path), '/') + [Stem(NamePart(path))] !in Abs(v0, m0)
    ensures MayCreate(v0, ParentPart(path), Stem(NamePart(path)))
    ensures forall v: Volume, m: Meta,
      s: Slot {:trigger MadeFile(v0, m0, v, m, s, path)} :: MadeFile(v0, m0, v, m, s, path) ==> !Addressable(v, m)
  {
    hide EntryAt, FullName, Tokens, IsLink, CreatedAs, Abs, PathOf, Walk, WF, Addressable, LastSlash, Span,
         OneExtension, HasRoom, MayCreate;
    StemUnlistedPasses(v0, m0, ParentPart(path), Stem(NamePart(path)));
    forall v: Volume, m: Meta, s: Slot | MadeFile(v0, m0, v, m, s, path)
      ensures !Addressable(v, m)
    {
      MkFileAbs(v0, m0, v, m, s, path);
    }
  }

  /** What mkfile does when it answers 0. */
  ghost predicate MadeFile(v0: Volume, m0: Meta, v: Volume, m: Meta, s: Slot, path: seq<char>) {
    CreatedAs(v0, m0, v, m, s, ParentPart(path), Stem(NamePart(path)), Extension(NamePart(path)), true)
  }

  lemma EntryTable(v: Volume, s: Slot)
    requires s.dir < |v.disk| && s.idx < MAX_DIR_TABLE_ENTRY
    ensures EntryAt(v, s) == Table(v, s.dir)[s.idx]
  {
  }

  // ---------- delete ----------

  /** A successful delete removes one path and keeps every other object. */
  lemma DeleteAbs(v0: Volume, m0: Meta, v: Volume, m: Meta, s: Slot)
    requires DeletedSlot(v0, m0, v, m, s)
    requires WF(v0, m0) && Addressable(v0, m0)
    ensures WF(v, m) && Addressable(v, m)
    ensures Abs(v, m) == Abs(v0, m0) - {PathOf(v0, m0, s)}
    ensures forall t | t in m.chains :: Kept(v0, m0, v, m, t)
  {
    hide EntryAt, FullName, IsLink, Linked, Hung, Housed, Abs, Header, PathOf, DirPath, ObjOf, RemoveEntry, Partitioned;
    RemoveKeepsWF(v0, m0, s);
    forall t | t in m.chains
      ensures Kept(v0, m0, v, m, t) && ObjOf(v, m, t) == ObjOf(v0, m0, t) && EntryAt(v, t) == EntryAt(v0, t)
    {
      DeleteKeeps(v0, m0, v, m, s, t);
      KeptObj(v0, m0, v, m, t);
    }
    AbsRemove(v0, m0, v, m, s);
  }

  lemma DeleteKeeps(v0: Volume, m0: Meta, v: Volume, m: Meta, s: Slot, t: Slot)
    requires WF(v0, m0) && DeletedSlot(v0, m0, v, m, s) && t in m.chains
    ensures Kept(v0, m0, v, m, t)
  {
    hide EntryAt, FullName, IsLink, Linked, Hung, Housed, Header, EncodeTable, EncodeFat, Tree;
    RemoveKeepsWF(v0, m0, s);
    SlotDir(v0, m0, t);
    SlotDir(v0, m0, s);
    if !IsDir(EntryAt(v0, t)) {
      forall k | 0 <= k < |m0.chains[t]|
        ensures m0.chains[t][k] != s.dir && m0.chains[t][k] >= 3
      {
        FileCluster(v0, m0, t, k);
      }
    }
  }

  // ---------- write ----------

  /** A write replaces the bytes of one file and nothing else. */
  lemma WriteAbs(v0: Volume, m0: Meta, v: Volume, m: Meta, s: Slot, p0: nat, p: nat, stale: Cluster, data: seq<char>,
                 r: int)
    requires Written(v0, m0, v, m, s, p0, p, stale, data, r)
    requires WF(v0, m0) && Addressable(v0, m0) && !IsDir(EntryAt(v0, s))
    ensures WF(v, m) && Addressable(v, m) && s in m0.chains
    ensures Abs(v, m) == Abs(v0, m0)[PathOf(v0, m0, s) := File(Bytes(v, m, s))]
  {
    hide EntryAt, FullName, WF, Addressable, Abs, PathOf, SameNames, Kept, Content, Overlay, IsDir, FreeSet, Clusters;
    WrittenKeepsWF(v0, m0, v, m, s, p0, p, stale, data, r);
    SameNamesKeys(v0, m0, v, m);
    SameNamesAt(v0, m0, v, m, s);
    forall t | t in m.chains && t != s
      ensures ObjOf(v, m, t) == ObjOf(v0, m0, t)
    {
      KeptObj(v0, m0, v, m, t);
    }
    AbsWrite(v0, m0, v, m, s);
  }

  // ---------- runs of writes and reads ----------

  datatype Snapshot = Snapshot(v: Volume, m: Meta, p: nat)

  function Concat(chunks: seq<seq<char>>): seq<char> {
    if chunks == [] then [] else chunks[0] + Concat(chunks[1..])
  }

  /** Successive successful `write_vfs` calls on one handle. */
  ghost predicate WriteRun(run: seq<Snapshot>, s: Slot, stale: seq<Cluster>, chunks: seq<seq<char>>)
    decreases |chunks|
  {
    && |run| == |chunks| + 1 && |stale| == |chunks|
    && (chunks != [] ==>
          WriteStep(run[0], run[1], s, stale[0], chunks[0]) && WriteRun(run[1..], s, stale[1..], chunks[1..]))
  }

  ghost predicate WriteStep(a: Snapshot, b: Snapshot, s: Slot, stale: Cluster, data: seq<char>) {
    Written(a.v, a.m, b.v, b.m, s, a.p, b.p, stale, data, |data|)
  }

  lemma WriteStepFacts(a: Snapshot, b: Snapshot, s: Slot, stale: Cluster, data: seq<char>)
    requires WriteStep(a, b, s, stale, data)
    ensures a.p <= |Bytes(a.v, a.m, s)| && b.p == a.p + |data|
    ensures b.p > 0 ==> Bytes(b.v, b.m, s) == Overlay(Bytes(a.v, a.m, s), a.p, data)
  {
    hide WF, EntryAt, SameNames, Kept, FreeSet, Content, Bytes, Clusters;
  }

  /** A write changes no entry but that in slot `s`, and of that only the size; no entry comes or goes. */
  ghost predicate OnlyWrote(a: Snapshot, b: Snapshot, s: Slot) {
    && b.m.chains.Keys == a.m.chains.Keys && s in a.m.chains && SameButSize(EntryAt(a.v, s), EntryAt(b.v, s))
    && forall t {:trigger Kept(a.v, a.m, b.v, b.m, t)} | t in b.m.chains && t != s :: Kept(a.v, a.m, b.v, b.m, t)
  }

  /** A run of writes on one handle keeps every other entry with its chain and data. */
  lemma {:induction false} WritesKeep(run: seq<Snapshot>, s: Slot, stale: seq<Cluster>, chunks: seq<seq<char>>)
    requires WriteRun(run, s, stale, chunks) && chunks != []
    ensures OnlyWrote(run[0], run[|chunks|], s)
    decreases |chunks|
  {
    hide WriteStep, OnlyWrote;
    StepKeeps(run[0], run[1], s, stale[0], chunks[0]);
    if |chunks| > 1 {
      WritesKeep(run[1..], s, stale[1..], chunks[1..]);
      OnlyWroteTrans(run[0], run[1], run[|chunks|], s);
    }
  }

  lemma StepKeeps(a: Snapshot, b: Snapshot, s: Slot, stale: Cluster, data: seq<char>)
    requires WriteStep(a, b, s, stale, data)
    ensures OnlyWrote(a, b, s)
  {
    hide WF, EntryAt, Kept, FreeSet, Content, Bytes, Clusters;
  }

  lemma OnlyWroteTrans(a: Snapshot, b: Snapshot, c: Snapshot, s: Slot)
    requires OnlyWrote(a, b, s) && OnlyWrote(b, c, s)
    ensures OnlyWrote(a, c, s)
  {
    hide EntryAt, Kept;
    forall t | t in c.m.chains && t != s
      ensures Kept(a.v, a.m, c.v, c.m, t)
    {
      KeptTrans(a.v, a.m, b.v, b.m, c.v, c.m, t);
    }
  }

  lemma KeptTrans(v0: Volume, m0: Meta, v1: Volume, m1: Meta, v2: Volume, m2: Meta, t: Slot)
    requires Kept(v0, m0, v1, m1, t) && Kept(v1, m1, v2, m2, t)
    ensures Kept(v0, m0, v2, m2, t)
  {
    hide EntryAt;
  }

  /** However the data is cut into chunks, a run of writes on a fresh handle lays the concatenation over the
      old contents, as long as the first chunk is not empty. */
  lemma {:induction false} WritesOverlay(run: seq<Snapshot>, s: Slot, stale: seq<Cluster>, chunks: seq<seq<char>>)
    requires WriteRun(run, s, stale, chunks)
    requires chunks != [] && (run[0].p > 0 || chunks[0] != [])
    ensures var a, b := run[0], run[|chunks|];
      a.p <= |Bytes(a.v, a.m, s)|
      && b.p == a.p + |Concat(chunks)|
      && Bytes(b.v, b.m, s) == Overlay(Bytes(a.v, a.m, s), a.p, Concat(chunks))
      && |Bytes(b.v, b.m, s)| == Max(|Bytes(a.v, a.m, s)|, a.p + |Concat(chunks)|)
    decreases |chunks|
  {
    hide WriteStep, Bytes, Overlay;
    var a, b := run[0], run[1];
    WriteStepFacts(a, b, s, stale[0], chunks[0]);
    if |chunks| == 1 {
      assert Concat(chunks) == chunks[0] + Concat([]) == chunks[0];
      assert run[1..][0] == run[1];
    } else {
      WritesOverlay(run[1..], s, stale[1..], chunks[1..]);
      OverlayTwice(Bytes(a.v, a.m, s), a.p, chunks[0], Concat(chunks[1..]));
    }
  }

  /** Exactly the empty first write is harmful: it leaves the file intact only if the stale buffer agrees
      with the file's first bytes. */
  lemma EmptyFirstWrite(v0: Volume, m0: Meta, v: Volume, m: Meta, s: Slot, stale: Cluster)
    requires Written(v0, m0, v, m, s, 0, 0, stale, [], 0)
    ensures var n := |Bytes(v0, m0, s)|;
      Bytes(v, m, s) == Bytes(v0, m0, s) <==>
      forall x :: 0 <= x < n && x < CLUSTER_SIZE ==> stale[x] == Bytes(v0, m0, s)[x]
  {
    hide WF, EntryAt, SameNames, Kept, FreeSet, Content, Clusters;
    var b0 := Bytes(v0, m0, s);
    var b := Overlay(b0, 0, stale)[..|b0|];
    assert Bytes(v, m, s) == b;
    assert forall x :: 0 <= x < |b0| ==> b[x] == if x < CLUSTER_SIZE then stale[x] else b0[x];
  }

  /** What one `read_vfs` call did: from offset `p0` it returned `out` and moved to `p`. */
  ghost predicate ReadStep(bytes: seq<char>, p0: nat, size: int, out: seq<char>, p: nat) {
    && p0 <= |bytes| && p == p0 + |out| && p <= |bytes| && out == bytes[p0..p]
    && |out| == if size <= 0 then 0 else if size < |bytes| - p0 then size else |bytes| - p0
  }

  function Min(a: int, b: int): int { if a < b then a else b }

  /** Successive reads with any sizes. */
  ghost predicate ReadRun(bytes: seq<char>, p0: nat, sizes: seq<int>, outs: seq<seq<char>>, p: nat)
    decreases |sizes|
  {
    if sizes == [] then outs == [] && p == p0
    else outs != [] && ReadStep(bytes, p0, sizes[0], outs[0], p0 + |outs[0]|)
         && ReadRun(bytes, p0 + |outs[0]|, sizes[1..], outs[1..], p)
  }

  /** Successive reads return consecutive slices: together the file from the start offset on, as far as asked. */
  lemma {:induction false} ReadsConcat(bytes: seq<char>, p0: nat, sizes: seq<int>, outs: seq<seq<char>>, p: nat)
    requires ReadRun(bytes, p0, sizes, outs, p) && p0 <= |bytes|
    ensures p0 <= p <= |bytes| && Concat(outs) == bytes[p0..p]
    ensures p - p0 == Min(Total(sizes), |bytes| - p0)
    decreases |sizes|
  {
    if sizes != [] {
      ReadsConcat(bytes, p0 + |outs[0]|, sizes[1..], outs[1..], p);
      assert bytes[p0..p] == bytes[p0..p0 + |outs[0]|] + bytes[p0 + |outs[0]|..p];
    }
  }

  function Total(sizes: seq<int>): (n: nat) {
    if sizes == [] then 0 else (if sizes[0] < 0 then 0 else sizes[0]) + Total(sizes[1..])
  }

  /** Reads that ask for at least the rest of the file return all of it, and then nothing more. */
  lemma ReadsWhole(bytes: seq<char>, sizes: seq<int>, outs: seq<seq<char>>, p: nat, more: int, out: seq<char>, p': nat)
    requires ReadRun(bytes, 0, sizes, outs, p) && Total(sizes) >= |bytes|
    requires ReadStep(bytes, p, more, out, p')
    ensures Concat(outs) == bytes && out == []
  {
    ReadsConcat(bytes, 0, sizes, outs, p);
    assert bytes[0..|bytes|] == bytes;
  }
}
