/** What the whole-file API answers and stores, in the fields of the directory entries and on the abstract file
    system. */
module OldFatMeaning {
  import opened FatLayout
  import opened FatVolume
  import opened FatTree
  import opened FatFile
  import opened FatNames
  import opened FatSpec
  import opened OldFat32
  import FatMeaning
  import Driver = Fat32Driver

  /** A cluster passes for a directory table when the allocation table ends a chain there and its first two entries
      are directories called "." and "..". */
  lemma ParentMeans(v: Volume, c: nat)
    requires c < 512
    ensures var t := Table(v, c);
      LooksLikeDir(v, c) <==>
        && v.fat[c] == 0x0FFF_FFFF
        && CStr(t[0].name) == "." && t[0].attribute == 0x10 as char
        && CStr(t[1].name) == ".." && t[1].attribute == 0x10 as char
  {
    hide CStr, Table;
  }

  /** `read` looks for the first used entry of the name and extension: it answers 2 when there is none, 1 when it is a
      directory, -1 when it is larger than the buffer and 0 otherwise. */
  lemma ReadMeans(v: Volume, q: Request) returns (i: nat)
    requires q.parent_cluster_number < 512
    ensures i <= 64 && forall j :: 0 <= j < i ==>
      var e := Table(v, q.parent_cluster_number)[j];
      e.user_attribute != 170 as char || CStr(e.name) != CStr(q.name) || CStr(e.ext) != CStr(q.ext)
    ensures !LooksLikeDir(v, q.parent_cluster_number) ==> ReadAnswer(v, q) == -1
    ensures LooksLikeDir(v, q.parent_cluster_number) && i == 64 ==> ReadAnswer(v, q) == 2
    ensures i < 64 ==>
      var e := Table(v, q.parent_cluster_number)[i];
      e.user_attribute == 170 as char && CStr(e.name) == CStr(q.name) && CStr(e.ext) == CStr(q.ext)
      && ReadSlot(v, q) == Slot(q.parent_cluster_number, i)
      && (LooksLikeDir(v, q.parent_cluster_number) ==>
            ReadAnswer(v, q) == if e.attribute == 0x10 as char then 1 else if e.filesize > q.buffer_size then -1 else 0)
  {
    hide CStr, Table, LooksLikeDir;
    i := FindMatch(Table(v, q.parent_cluster_number), q, 0);
    forall j | 0 <= j < i
      ensures var e := Table(v, q.parent_cluster_number)[j];
        e.user_attribute != 170 as char || CStr(e.name) != CStr(q.name) || CStr(e.ext) != CStr(q.ext)
    {
      assert !Matches(Table(v, q.parent_cluster_number)[j], q);
    }
  }

  /** `write` refuses a name that a used entry has, with the extension for a file and whatever the extension for a
      directory; and it needs an unused entry and as many free clusters as the data fills, one for a directory. */
  lemma WriteMeans(v: Volume, q: Request)
    requires q.parent_cluster_number < 512
    ensures forall i :: 0 <= i < 64 ==>
      var e := Table(v, q.parent_cluster_number)[i];
      Clashes(e, q) <==>
        && e.user_attribute == 170 as char && CStr(e.name) == CStr(q.name)
        && (q.buffer_size > 0 ==> CStr(e.ext) == CStr(q.ext))
    ensures NoRoom(v, q) <==>
      || (forall i :: 0 <= i < 64 ==> Table(v, q.parent_cluster_number)[i].user_attribute == 170 as char)
      || var free := |set c | 0 <= c < 512 && v.fat[c] == 0|;
         free == 0 || free * 2048 < q.buffer_size
  {
    hide CStr, Table;
    assert (set c | 0 <= c < 512 && v.fat[c] == 0) == FreeSet(v.fat);
    Rounded(q.buffer_size, |FreeSet(v.fat)|);
  }

  lemma Rounded(size: nat, n: nat)
    ensures n < Clusters(if size == 0 then CLUSTER_SIZE else size) <==> n == 0 || n * 2048 < size
  {
  }

  /** `delete` takes the first used entry of the name that is a directory or has the extension. It finds none exactly
      when there is none, and removes it exactly when it is a file or a directory with no used entry from index 2 on. */
  lemma DeleteMeans(v: Volume, q: Request) returns (i: nat)
    requires q.parent_cluster_number < 512
    ensures i <= 64 && forall j :: 0 <= j < i ==>
      var e := Table(v, q.parent_cluster_number)[j];
      e.user_attribute != 170 as char || CStr(e.name) != CStr(q.name)
      || (e.attribute != 0x10 as char && CStr(e.ext) != CStr(q.ext))
    ensures Finds(v, q) <==> LooksLikeDir(v, q.parent_cluster_number) && i < 64
    ensures i < 64 ==>
      var e := Table(v, q.parent_cluster_number)[i];
      e.user_attribute == 170 as char && CStr(e.name) == CStr(q.name)
      && (e.attribute == 0x10 as char || CStr(e.ext) == CStr(q.ext))
      && DeleteSlot(v, q) == Slot(q.parent_cluster_number, i)
  {
    hide CStr, Table, LooksLikeDir;
    i := FindDelete(Table(v, q.parent_cluster_number), q, 0);
    forall j | 0 <= j < i
      ensures var e := Table(v, q.parent_cluster_number)[j];
        e.user_attribute != 170 as char || CStr(e.name) != CStr(q.name)
        || (e.attribute != 0x10 as char && CStr(e.ext) != CStr(q.ext))
    {
      assert !Deletes(Table(v, q.parent_cluster_number)[j], q);
    }
  }

  lemma RemovableMeans(v: Volume, m: Meta, s: Slot)
    requires WF(v, m) && s in m.chains
    ensures ClusterOf(EntryAt(v, s)) < 512
    ensures Removable(v, m, s) <==> (EntryAt(v, s).attribute == 0x10 as char ==>
      forall j :: 2 <= j < 64 ==> Table(v, ClusterOf(EntryAt(v, s)))[j].user_attribute != 170 as char)
  {
    hide WF, EntryAt, Table, ClusterOf, Removable, CountUsed;
    Driver.Fat32.EntryCluster(v, m, s);
    FatMeaning.CountMeans(Table(v, ClusterOf(EntryAt(v, s))), 2);
    var t := Table(v, ClusterOf(EntryAt(v, s)));
    var used := set j | 2 <= j < 64 && t[j].user_attribute == 170 as char;
    if IsDir(EntryAt(v, s)) && CountUsed(t, 2) != 0 {
      Driver.Fat32.NotRemovable(v, m, s);
      var j :| j in used;
    } else {
      assert IsDir(EntryAt(v, s)) ==> used == {};
      Driver.Fat32.EmptyRemovable(v, m, s);
      assert forall j :: 2 <= j < 64 && t[j].user_attribute == 170 as char ==> j in used;
    }
  }

  /** A write adds one object under the name of its entry, with exactly the bytes given, and changes nothing else, as
      long as the parent does not list that name. */
  lemma WroteAbs(v0: Volume, m0: Meta, v: Volume, m: Meta, q: Request, s: Slot, cs: seq<nat>)
    requires WF(v0, m0) && Addressable(v0, m0) && WroteFile(v0, m0, v, m, q, s, cs)
    requires PlainName(FullName(EntryAt(v, s)))
    requires s.dir in m0.depth && DirPath(v0, m0, s.dir) + [FullName(EntryAt(v, s))] !in Abs(v0, m0)
    ensures WF(v, m) && Addressable(v, m)
    ensures Abs(v, m) == Abs(v0, m0)[DirPath(v0, m0, s.dir) + [FullName(EntryAt(v, s))] :=
      if q.buffer_size == 0 then Directory else File(q.buf[..q.buffer_size])]
  {
    hide WF, Addressable, Abs, DirPath, EntryAt, FullName, ObjOf, PathOf, Chainable, Stored, RequestEntry, Pieces,
         CreatedChain, IsDir;
    var e := RequestEntry(EntryAt(v0, s), q, cs[0], SizeOf(q));
    WroteEntry(v0, m0, v, m, q, s, cs);
    StoredWF(v0, m0, v, s, e, cs, Pieces(q, cs));
    CreatedChainIs(m0, s, cs, q.buffer_size == 0);
    FreeNotHome(v0, m0, s, e, cs, Pieces(q, cs));
    UnlistedIff(v0, m0, s.dir, FullName(EntryAt(v, s)));
    forall t | t in m0.chains
      ensures ObjOf(v, m, t) == ObjOf(v0, m0, t) && EntryAt(v, t) == EntryAt(v0, t)
    {
      StoredKeeps(v0, m0, v, s, e, cs, Pieces(q, cs), t);
      KeptObj(v0, m0, v, m, t);
    }
    AbsCreate(v0, m0, v, m, s);
    WroteBytes(v0, m0, v, m, q, s, cs);
  }

  lemma WroteEntry(v0: Volume, m0: Meta, v: Volume, m: Meta, q: Request, s: Slot, cs: seq<nat>)
    requires WF(v0, m0) && WroteFile(v0, m0, v, m, q, s, cs)
    ensures var e := RequestEntry(EntryAt(v0, s), q, cs[0], SizeOf(q));
      EntryAt(v, s) == e && IsDir(e) == (q.buffer_size == 0) && e.filesize == SizeOf(q)
  {
    hide WF, EntryAt, RequestEntry, Pieces, CreatedChain, IsDir, Chainable, Stored;
    var e := RequestEntry(EntryAt(v0, s), q, cs[0], SizeOf(q));
    ChainableDir(v0, m0, s, e, cs, Pieces(q, cs));
    StoredEntries(v0, m0, v, s, e, cs, Pieces(q, cs));
    FirstSmall(v0, m0, s, e, cs, Pieces(q, cs));
    RequestEntryReads(EntryAt(v0, s), q, cs[0], SizeOf(q));
  }

  lemma FirstSmall(v: Volume, m: Meta, s: Slot, e: DirEntry, fs: seq<nat>, pieces: seq<Cluster>)
    requires Chainable(v, m, s, e, fs, pieces)
    ensures fs[0] < 0x1_0000
  {
    hide EntryAt, ClusterOf;
  }

  lemma WroteBytes(v0: Volume, m0: Meta, v: Volume, m: Meta, q: Request, s: Slot, cs: seq<nat>)
    requires WF(v0, m0) && WroteFile(v0, m0, v, m, q, s, cs) && s in m.chains && m.chains[s] == cs
    ensures ObjOf(v, m, s) == if q.buffer_size == 0 then Directory else File(q.buf[..q.buffer_size])
  {
    hide WF, EntryAt, RequestEntry, Pieces, CreatedChain, IsDir, Chainable, Stored, ByteAt, Clusters;
    WroteEntry(v0, m0, v, m, q, s, cs);
    if q.buffer_size > 0 {
      var b := Content(v, cs, q.buffer_size);
      ClustersFit(q.buffer_size, |cs|);
      forall x | 0 <= x < q.buffer_size
        ensures b[x] == q.buf[..q.buffer_size][x]
      {
        WrittenByte(v0, m0, v, m, q, s, cs, x);
      }
      assert b == q.buf[..q.buffer_size];
    }
  }
}
