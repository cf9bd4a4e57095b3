/** Names given to the driver: splitting a path into parent and name, and a file name into an 8.3 pair. */
module FatNames {
  import opened FatLayout
  import opened FatVolume
  import opened FatTree
  import opened CStrings

  /** Index of the last '/', or -1 (the backwards loop of `parse_path`). */
  function LastSlash(path: seq<char>): (i: int)
    ensures -1 <= i < |path| && (i >= 0 ==> path[i] == '/')
    ensures forall j :: i < j < |path| ==> path[j] != '/'
  {
    if path == [] then -1
    else if path[|path| - 1] == '/' then |path| - 1
    else LastSlash(path[..|path| - 1])
  }

  function ParentPart(path: seq<char>): seq<char> {
    var i := LastSlash(path);
    if i == -1 then [] else path[..i]
  }

  function NamePart(path: seq<char>): (n: seq<char>)
    ensures '/' !in n
  {
    path[LastSlash(path) + 1..]
  }

  /** The components of a path are those of its parent part followed by its name part. */
  lemma PathParts(path: seq<char>)
    ensures NamePart(path) != [] ==> Tokens(path, '/') == Tokens(ParentPart(path), '/') + [NamePart(path)]
    ensures NamePart(path) == [] ==> Tokens(path, '/') == Tokens(ParentPart(path), '/')
    ensures NUL !in path ==> NUL !in ParentPart(path) && NUL !in NamePart(path)
  {
    var i := LastSlash(path);
    var a, n := ParentPart(path), NamePart(path);
    if i == -1 {
      assert path == n;
      if n != [] { TokensHead(n, [], '/'); assert n + [] == n; }
    } else {
      assert path == a + ['/'] + n;
      if n != [] { TokensSnoc(a, n, '/'); } else { TokensEnd(a, '/'); assert path == a + ['/']; }
    }
  }

  // ---------- name.ext ----------

  function Stem(name: seq<char>): seq<char> {
    if Tokens(name, '.') == [] then [] else Tokens(name, '.')[0]
  }

  function Extension(name: seq<char>): seq<char> {
    if |Tokens(name, '.')| < 2 then [] else Tokens(name, '.')[1]
  }

  /** The full name of a file created with this stem and extension. */
  function Joined(stem: seq<char>, ext: seq<char>): seq<char> {
    if ext == [] then stem else stem + ['.'] + ext
  }

  /** At most one dot, neither first nor last. */
  predicate OneExtension(name: seq<char>) {
    && name != []
    && var n := Span(name, '.');
       n == |name| || (0 < n < |name| - 1 && '.' !in name[n + 1..])
  }

  lemma StemPlain(name: seq<char>)
    requires Tokens(name, '.') != []
    ensures Stem(name) != [] && '.' !in Stem(name) && '.' !in Extension(name)
    ensures NUL !in name ==> NUL !in Stem(name) && NUL !in Extension(name)
    ensures '/' !in name ==> '/' !in Stem(name) && '/' !in Extension(name)
  {
    TokensPlain(name, '.');
    TokensIn(name, '.');
  }

  lemma {:induction false} TokensIn(s: seq<char>, d: char)
    ensures forall t, c | t in Tokens(s, d) && c in t :: c in s
    decreases |s|
  {
    if s == [] {
    } else if s[0] == d {
      TokensIn(s[1..], d);
    } else {
      TokensIn(s[Span(s, d)..], d);
    }
  }

  /** Splitting a name at its dot and joining it again is the identity exactly on names with at most
      one inner dot: other names are stored under a different name than the one given. */
  lemma SplitJoin(name: seq<char>)
    requires Tokens(name, '.') != []
    ensures Joined(Stem(name), Extension(name)) == name <==> OneExtension(name)
  {
    StemPlain(name);
    if OneExtension(name) {
      var n := Span(name, '.');
      TokensHead(name[..n], name[n..], '.');
      assert name == name[..n] + name[n..];
      if n < |name| {
        assert name[n..][1..] == name[n + 1..];
        TokensHead(name[n + 1..], [], '.');
        assert name[n + 1..] + [] == name[n + 1..];
        assert name == name[..n] + ['.'] + name[n + 1..];
      }
    }
    JoinedOne(Stem(name), Extension(name));
  }

  lemma JoinedOne(a: seq<char>, b: seq<char>)
    requires a != [] && '.' !in a && '.' !in b
    ensures OneExtension(Joined(a, b))
  {
    if b == [] {
      SpanAt(a, [], '.');
      assert a + [] == a;
    } else {
      SpanAt(a, ['.'] + b, '.');
      assert Joined(a, b) == a + (['.'] + b);
      assert Joined(a, b)[|a| + 1..] == b;
    }
  }

  // ---------- new entries ----------

  /** The entry `mkgeneral` builds in the free slot that held `e0`. */
  function NewEntry(e0: DirEntry, name: seq<char>, ext: seq<char>, aFile: bool, f: nat): DirEntry
    requires NUL !in name && NUL !in ext
  {
    var e := SetCluster(e0.(filesize := 0, attribute := if aFile then NUL else ATTR_SUBDIRECTORY,
                            user_attribute := UATTR_NOT_EMPTY, name := StrCpy(e0.name, name, 8)), f);
    if aFile then e.(ext := StrCpy(e.ext, ext, 3)) else e
  }

  lemma NewEntryReads(e0: DirEntry, name: seq<char>, ext: seq<char>, aFile: bool, f: nat)
    requires NUL !in name && NUL !in ext && |name| <= 7 && |ext| <= 2 && f < 0x1_0000
    ensures var e := NewEntry(e0, name, ext, aFile, f);
      Used(e) && IsDir(e) == !aFile && e.filesize == 0 && ClusterOf(e) == f
      && Terminated(e)
      && FullName(e) == if aFile then Joined(name, ext) else name
  {
    hide CStr;
    assert name[..|name|] == name && ext[..|ext|] == ext;
  }

  /** The duplicate check compares the bare stem with full names, so an extension escapes it. */
  lemma ExtensionEscapesCheck(e0: DirEntry)
    ensures var e := NewEntry(e0, "a", "t", true, 3);
      Used(e) && FullName(e) == Joined("a", "t") && !Names(e, "a")
  {
    NewEntryReads(e0, "a", "t", true, 3);
  }

  // ---------- what the driver answers ----------

  /** The directory a path leads to. */
  function TargetDir(v: Volume, p: Path): Option<nat> {
    if p == [] then Some(ROOT_CLUSTER_NUMBER)
    else
      match Walk(v, ROOT_CLUSTER_NUMBER, p)
      case Some(s) => if IsDir(EntryAt(v, s)) then Some(ClusterOf(EntryAt(v, s))) else None
      case None => None
  }

  /** The path is the root, a directory, or nothing: `mkgeneral` reads whatever it finds as a directory table. */
  predicate NotAFile(v: Volume, p: Path) {
    p != [] && Walk(v, ROOT_CLUSTER_NUMBER, p).Some? ==> TargetDir(v, p).Some?
  }

  lemma TargetDirPath(v: Volume, m: Meta, p: Path)
    requires WF(v, m)
    ensures ROOT_CLUSTER_NUMBER in m.depth
    ensures var d := TargetDir(v, p); d.Some? ==> d.value in m.depth && DirPath(v, m, d.value) == p
  {
    hide EntryAt, Walk, ClusterOf, FullName;
    if p != [] {
      WalkSound(v, m, ROOT_CLUSTER_NUMBER, p);
      var r := Walk(v, ROOT_CLUSTER_NUMBER, p);
      if r.Some? && IsDir(EntryAt(v, r.value)) {
        ChildDir(v, m, r.value);
      }
    }
  }

  /** When `mkgeneral` creates an entry: the parent exists, its table has a free slot and lists no
      entry whose full name is `name`, and a cluster is free. */
  predicate MayCreate(v: Volume, path: seq<char>, name: seq<char>) {
    && path != "." && path != ".."
    && TargetDir(v, Tokens(path, '/')).Some?
    && var t := Table(v, TargetDir(v, Tokens(path, '/')).value);
       FindName(t, name, RESERVED_ENTRY) == MAX_DIR_TABLE_ENTRY
       && (exists i :: RESERVED_ENTRY <= i < MAX_DIR_TABLE_ENTRY && !Used(t[i]))
       && (exists c :: 0 <= c < CLUSTER_MAP_SIZE && v.fat[c] == FAT32_FAT_EMPTY_ENTRY)
  }

  /** An entry called `name`, `ext` was created in slot `s` of the directory `path` leads to. */
  ghost predicate CreatedAs(v0: Volume, m0: Meta, v: Volume, m: Meta, s: Slot, path: seq<char>, name: seq<char>,
                            ext: seq<char>, aFile: bool)
  {
    && TargetDir(v0, Tokens(path, '/')) == Some(s.dir) && s.dir in m0.depth
    && NUL !in name && NUL !in ext && |name| <= 7 && |ext| <= 2
    && s in m.chains && |m.chains[s]| == 1
    && var f := m.chains[s][0];
       var e := NewEntry(EntryAt(v0, s), name, ext, aFile, f);
       Creatable(v0, m0, s, e, f) && s.dir < CLUSTER_MAP_SIZE
       && v == CreateEntry(v0, s, e, f) && m == Created(m0, s, f, !aFile)
  }

  /** Slot `s` was removed and its chain freed. */
  ghost predicate DeletedSlot(v0: Volume, m0: Meta, v: Volume, m: Meta, s: Slot) {
    && Removable(v0, m0, s) && s.dir < CLUSTER_MAP_SIZE && s.idx < MAX_DIR_TABLE_ENTRY
    && v == RemoveEntry(v0, s, m0.chains[s]) && m == Removed(m0, s)
  }
}
