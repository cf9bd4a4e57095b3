/** Directory slots not in use hold zeros: formatting and deleting write zeros, and nothing else touches them. */
module FatZeroed {
  import opened FatLayout
  import opened FatVolume
  import opened FatTree
  import opened FatFile
  import opened FatNames
  import opened FatSpec

  ghost predicate Zeroed(v: Volume, m: Meta) {
    forall s: Slot {:trigger EntryAt(v, s)} :: s.dir in m.depth && !Used(EntryAt(v, s)) ==> EntryAt(v, s) == ZERO_ENTRY
  }

  /** A freshly formatted disk. */
  lemma FreshZeroed(v: Volume)
    requires v.disk[2] == EncodeTable(EmptyTable(ROOT_CLUSTER_NUMBER, ROOT_CLUSTER_NUMBER))
    ensures Zeroed(v, FRESH_META)
  {
    hide EncodeTable, DecodeTable;
    var t := EmptyTable(ROOT_CLUSTER_NUMBER, ROOT_CLUSTER_NUMBER);
    TableRoundTrip(t);
    EmptyTableLinks(ROOT_CLUSTER_NUMBER, ROOT_CLUSTER_NUMBER);
    forall s: Slot | s.dir in FRESH_META.depth && !Used(EntryAt(v, s))
      ensures EntryAt(v, s) == ZERO_ENTRY
    {
      EmptyZeroed(s.idx, ROOT_CLUSTER_NUMBER, ROOT_CLUSTER_NUMBER);
    }
  }

  lemma EmptyZeroed(i: nat, current: nat, parent: nat)
    requires current < 0x1_0000 && parent < 0x1_0000
    ensures !Used(EmptySlot(i, current, parent)) ==> EmptySlot(i, current, parent) == ZERO_ENTRY
  {
    EmptyTableLinks(current, parent);
    assert i < MAX_DIR_TABLE_ENTRY ==> EmptyTable(current, parent)[i] == EmptySlot(i, current, parent);
  }

  lemma CreateZeroed(v: Volume, m: Meta, s: Slot, e: DirEntry, f: nat)
    requires WF(v, m) && Creatable(v, m, s, e, f) && Zeroed(v, m)
    ensures s.dir < CLUSTER_MAP_SIZE && Zeroed(CreateEntry(v, s, e, f), Created(m, s, f, IsDir(e)))
  {
    hide EntryAt, CreateEntry, WF, EmptySlot, Used;
    CreateEntries(v, m, s, e, f);
    var v', m' := CreateEntry(v, s, e, f), Created(m, s, f, IsDir(e));
    forall t: Slot | t.dir in m'.depth && !Used(EntryAt(v', t))
      ensures EntryAt(v', t) == ZERO_ENTRY
    {
      if t.dir in m.depth {
        assert t != s ==> EntryAt(v', t) == EntryAt(v, t);
      } else if t.idx < MAX_DIR_TABLE_ENTRY {
        EmptyZeroed(t.idx, f, s.dir);
      } else {
        OutsideZero(v', t);
      }
    }
  }

  lemma OutsideZero(v: Volume, t: Slot)
    requires t.idx >= MAX_DIR_TABLE_ENTRY
    ensures EntryAt(v, t) == ZERO_ENTRY
  {
  }

  lemma RemoveZeroed(v: Volume, m: Meta, s: Slot)
    requires WF(v, m) && Removable(v, m, s) && Zeroed(v, m)
    ensures s.dir < CLUSTER_MAP_SIZE && s.idx < MAX_DIR_TABLE_ENTRY
    ensures Zeroed(RemoveEntry(v, s, m.chains[s]), Removed(m, s))
  {
    hide EntryAt, RemoveEntry, WF, Used;
    RemoveKeepsWF(v, m, s);
    var v', m' := RemoveEntry(v, s, m.chains[s]), Removed(m, s);
    forall t: Slot | t.dir in m'.depth && !Used(EntryAt(v', t))
      ensures EntryAt(v', t) == ZERO_ENTRY
    {
      assert t.dir in m.depth && EntryAt(v', t) == if t == s then ZERO_ENTRY else EntryAt(v, t);
    }
  }

  /** A write leaves all other entries, and its own entry is in use. */
  lemma WriteZeroed(v0: Volume, m0: Meta, v: Volume, m: Meta, s: Slot, p0: nat, p: nat, stale: Cluster,
                    data: seq<char>, r: int)
    requires WF(v0, m0) && Written(v0, m0, v, m, s, p0, p, stale, data, r) && Zeroed(v0, m0)
    ensures Zeroed(v, m)
  {
    hide EntryAt, Used, Bytes, Kept, Overlay, WF;
    WrittenUsed(v0, m0, v, m, s);
  }

  lemma WrittenUsed(v0: Volume, m0: Meta, v: Volume, m: Meta, s: Slot)
    requires WF(v0, m0) && SameNames(v0, m0, v, m) && s in m0.chains
    ensures Used(EntryAt(v, s)) && m.depth == m0.depth
  {
    hide EntryAt, IsLink;
    assert Housed(v0, m0, s);
  }

  /** Making, deleting and writing keep it. */
  lemma MadeZeroed(v0: Volume, m0: Meta, v: Volume, m: Meta, s: Slot, path: seq<char>, name: seq<char>,
                   ext: seq<char>, aFile: bool)
    requires WF(v0, m0) && CreatedAs(v0, m0, v, m, s, path, name, ext, aFile) && Zeroed(v0, m0)
    ensures Zeroed(v, m)
  {
    hide EntryAt, CreateEntry, WF, Zeroed, Creatable, NewEntry;
    var f := m.chains[s][0];
    var e := NewEntry(EntryAt(v0, s), name, ext, aFile, f);
    CreatableCluster(v0, m0, s, e, f);
    NewEntryReads(EntryAt(v0, s), name, ext, aFile, f);
    CreateZeroed(v0, m0, s, e, f);
  }

  lemma CreatableCluster(v: Volume, m: Meta, s: Slot, e: DirEntry, f: nat)
    requires Creatable(v, m, s, e, f)
    ensures f < CLUSTER_MAP_SIZE
  {
  }

  lemma DeletedZeroed(v0: Volume, m0: Meta, v: Volume, m: Meta, s: Slot)
    requires WF(v0, m0) && DeletedSlot(v0, m0, v, m, s) && Zeroed(v0, m0)
    ensures Zeroed(v, m)
  {
    hide EntryAt, RemoveEntry, WF, Zeroed, Removable;
    RemoveZeroed(v0, m0, s);
  }
}
