/** A write on a handle that has read: the cluster pointer is one ahead of the cluster in the buffer, so the flush of
    write_vfs (src/kernel/c/filesystem/fat32.c:331) goes to the wrong cluster. */
module FatMisplaced {
  import opened FatLayout
  import opened FatVolume
  import opened FatTree
  import opened FatFile

  /** The bytes fall into the cluster holding byte `p`, which was entered by reading. */
  ghost predicate Inside(v: Volume, m: Meta, s: Slot, p: nat, n: nat) {
    && s in m.chains && !IsDir(EntryAt(v, s)) && p <= |Bytes(v, m, s)|
    && p % CLUSTER_SIZE != 0 && 0 < n && p % CLUSTER_SIZE + n <= CLUSTER_SIZE
    && p / CLUSTER_SIZE < |m.chains[s]| && s.dir < |v.disk| && s.idx < MAX_DIR_TABLE_ENTRY
    && m.chains[s][p / CLUSTER_SIZE] < |v.disk|
    && (p / CLUSTER_SIZE + 1 < |m.chains[s]| ==> m.chains[s][p / CLUSTER_SIZE + 1] < |v.disk|)
    && (p + n) < 0x1_0000_0000
  }

  /** The buffer that is flushed: the cluster last read with the data in it. */
  ghost function Patched(v: Volume, m: Meta, s: Slot, p: nat, data: seq<char>): (b: Cluster)
    requires Inside(v, m, s, p, |data|)
  {
    Overlay(v.disk[m.chains[s][p / CLUSTER_SIZE]], p % CLUSTER_SIZE, data)
  }

  /** The disk after the flush: behind the last cluster of a file the pointer is the end-of-file mark, and a block of
      that number is not on the disk. */
  ghost function Spilled(v: Volume, m: Meta, s: Slot, p: nat, data: seq<char>): Volume
    requires Inside(v, m, s, p, |data|)
  {
    if p / CLUSTER_SIZE + 1 < |m.chains[s]|
    then PutCluster(v, m.chains[s][p / CLUSTER_SIZE + 1], Patched(v, m, s, p, data))
    else v
  }

  /** The volume after the write. */
  ghost function Misplaced(v: Volume, m: Meta, s: Slot, p: nat, data: seq<char>): Volume
    requires Inside(v, m, s, p, |data|)
  {
    PutEntry(Spilled(v, m, s, p, data), s, EntryAt(v, s).(filesize := Max(EntryAt(v, s).filesize, p + |data|)))
  }

  /** The data was in the file already, and the next cluster, if there is one, repeated the one the data fell into. */
  ghost predicate Harmless(v: Volume, m: Meta, s: Slot, p: nat, data: seq<char>)
    requires Inside(v, m, s, p, |data|)
  {
    var ch, next := m.chains[s], (p / CLUSTER_SIZE + 1) * CLUSTER_SIZE;
    && (forall j :: 0 <= j < |data| ==> ByteAt(v.disk, ch, p + j) == data[j])
    && (forall x :: next <= x < |Bytes(v, m, s)| && x < next + CLUSTER_SIZE ==>
          ByteAt(v.disk, ch, x) == ByteAt(v.disk, ch, x - CLUSTER_SIZE))
  }

  lemma MisplacedEntry(v: Volume, m: Meta, s: Slot, p: nat, data: seq<char>)
    requires WF(v, m) && Inside(v, m, s, p, |data|)
    ensures var v' := Misplaced(v, m, s, p, data);
      EntryAt(v', s) == EntryAt(v, s).(filesize := Max(EntryAt(v, s).filesize, p + |data|)) && |v'.disk| == |v.disk|
      && |Bytes(v', m, s)| == Max(|Bytes(v, m, s)|, p + |data|)
  {
    hide EntryAt, IsDir, Content, Overlay, EncodeTable, WF;
    PutEntryAt(Spilled(v, m, s, p, data), s, EntryAt(v, s).(filesize := Max(EntryAt(v, s).filesize, p + |data|)), s);
  }

  /** Nothing of the data reaches its place: the cluster it belongs to is left, and the next one, if there is one, is
      overwritten. */
  lemma MisplacedByte(v: Volume, m: Meta, s: Slot, p: nat, data: seq<char>, x: nat)
    requires WF(v, m) && Inside(v, m, s, p, |data|) && x / CLUSTER_SIZE < |m.chains[s]|
    ensures var k := p / CLUSTER_SIZE;
      ByteAt(Misplaced(v, m, s, p, data).disk, m.chains[s], x) ==
        if x / CLUSTER_SIZE == k + 1 then Patched(v, m, s, p, data)[x % CLUSTER_SIZE]
          else ByteAt(v.disk, m.chains[s], x)
  {
    hide EntryAt, IsDir, Overlay, EncodeTable, WF, Bytes;
    var ch, c := m.chains[s], m.chains[s][x / CLUSTER_SIZE];
    FileCluster(v, m, s, x / CLUSTER_SIZE);
    SlotDir(v, m, s);
    assert c != s.dir;
    FileChain(v, m, s);
    if p / CLUSTER_SIZE + 1 < |ch| && c == ch[p / CLUSTER_SIZE + 1] {
      ChainDistinct(v.fat, ch, x / CLUSTER_SIZE, p / CLUSTER_SIZE + 1);
    }
  }

  lemma FileChain(v: Volume, m: Meta, s: Slot)
    requires WF(v, m) && s in m.chains
    ensures IsChain(v.fat, m.chains[s])
  {
  }

  lemma PatchedByte(v: Volume, m: Meta, s: Slot, p: nat, data: seq<char>, y: nat)
    requires Inside(v, m, s, p, |data|) && y < CLUSTER_SIZE
    ensures var o, start := p % CLUSTER_SIZE, p / CLUSTER_SIZE * CLUSTER_SIZE;
      Patched(v, m, s, p, data)[y] == if o <= y < o + |data| then data[y - o]
        else ByteAt(v.disk, m.chains[s], start + y)
  {
    hide EntryAt, IsDir, Bytes;
    assert (p / CLUSTER_SIZE * CLUSTER_SIZE + y) / CLUSTER_SIZE == p / CLUSTER_SIZE;
  }

  lemma Places(p: nat, n: nat, x: nat)
    requires p % CLUSTER_SIZE + n <= CLUSTER_SIZE
    ensures p <= x < p + n ==> x / CLUSTER_SIZE == p / CLUSTER_SIZE && x % CLUSTER_SIZE == p % CLUSTER_SIZE + (x - p)
    ensures var start := p / CLUSTER_SIZE * CLUSTER_SIZE;
      p == start + p % CLUSTER_SIZE
      && (x / CLUSTER_SIZE == p / CLUSTER_SIZE + 1 <==> start + CLUSTER_SIZE <= x < start + 2 * CLUSTER_SIZE)
      && (x / CLUSTER_SIZE == p / CLUSTER_SIZE + 1 ==> start + x % CLUSTER_SIZE == x - CLUSTER_SIZE)
  {
  }

  /** What is in the file at `x` afterwards, and what should be. */
  lemma MisplacedAt(v: Volume, m: Meta, s: Slot, p: nat, data: seq<char>, x: nat)
    requires WF(v, m) && Inside(v, m, s, p, |data|) && x < Max(|Bytes(v, m, s)|, p + |data|)
    ensures var b', want, ch, next := Bytes(Misplaced(v, m, s, p, data), m, s), Overlay(Bytes(v, m, s), p, data),
      m.chains[s], (p / CLUSTER_SIZE + 1) * CLUSTER_SIZE;
      |b'| == |want| == Max(|Bytes(v, m, s)|, p + |data|)
      && want[x] == (if p <= x < p + |data| then data[x - p] else ByteAt(v.disk, ch, x))
      && (if next <= x < next + CLUSTER_SIZE then x < |Bytes(v, m, s)|
            && b'[x] == if p <= x - CLUSTER_SIZE < p + |data| then data[x - CLUSTER_SIZE - p]
               else ByteAt(v.disk, ch, x - CLUSTER_SIZE)
          else b'[x] == ByteAt(v.disk, ch, x))
  {
    hide EntryAt, IsDir, Overlay, Misplaced, WF, Bytes, Patched, ByteAt;
    MisplacedEntry(v, m, s, p, data);
    SizeCovered(v, m, s);
    Places(p, |data|, x);
    WantedByte(v, m, Misplaced(v, m, s, p, data), s, p, data, x);
    MisplacedByte(v, m, s, p, data, x);
    PatchedByte(v, m, s, p, data, x % CLUSTER_SIZE);
  }

  /** The volume survives it, and so do all other files and directories. */
  lemma MisplacedKeepsWF(v: Volume, m: Meta, s: Slot, p: nat, data: seq<char>)
    requires WF(v, m) && Inside(v, m, s, p, |data|)
    ensures WF(Misplaced(v, m, s, p, data), m)
    ensures forall t | t in m.chains && t != s :: Kept(v, m, Misplaced(v, m, s, p, data), m, t)
  {
    SpilledKeepsWF(v, m, s, p, data);
    hide *;
    forall t | t in m.chains && t != s
      ensures Kept(v, m, Misplaced(v, m, s, p, data), m, t)
    {
      MisplacedKeeps(v, m, s, p, data, t);
    }
  }

  lemma SpilledKeepsWF(v: Volume, m: Meta, s: Slot, p: nat, data: seq<char>)
    requires WF(v, m) && Inside(v, m, s, p, |data|)
    ensures WF(Misplaced(v, m, s, p, data), m)
  {
    hide EntryAt, IsDir, Overlay, WF, Patched, EncodeTable;
    var k := p / CLUSTER_SIZE;
    if k + 1 < |m.chains[s]| { DataKeepsWF(v, m, s, k + 1, Patched(v, m, s, p, data)); }
    SizeCovered(v, m, s);
    SlotDir(v, m, s);
    ResizeKeepsWF(Spilled(v, m, s, p, data), m, s, Max(EntryAt(v, s).filesize, p + |data|));
  }

  lemma Apart(v: Volume, m: Meta, s: Slot, i: nat, t: Slot, j: nat)
    requires WF(v, m) && s in m.chains && t in m.chains && s != t && i < |m.chains[s]| && j < |m.chains[t]|
    ensures m.chains[s][i] != m.chains[t][j]
  {
    hide EntryAt;
    if m.chains[s][i] == m.chains[t][j] { ChainsDisjoint(v.fat, m, s, i, t, j); }
  }

  lemma MisplacedKeeps(v: Volume, m: Meta, s: Slot, p: nat, data: seq<char>, t: Slot)
    requires WF(v, m) && Inside(v, m, s, p, |data|) && t in m.chains && t != s
    ensures Kept(v, m, Misplaced(v, m, s, p, data), m, t)
  {
    hide EntryAt, IsDir, Overlay, WF, Patched, EncodeTable;
    var k := p / CLUSTER_SIZE;
    var v1 := Spilled(v, m, s, p, data);
    SlotDir(v, m, s);
    SlotDir(v, m, t);
    if k + 1 < |m.chains[s]| { DataKeepsWF(v, m, s, k + 1, Patched(v, m, s, p, data)); }
    PutEntryAt(v1, s, EntryAt(v, s).(filesize := Max(EntryAt(v, s).filesize, p + |data|)), t);
    if !IsDir(EntryAt(v, t)) {
      forall j | 0 <= j < |m.chains[t]|
        ensures m.chains[t][j] != s.dir
        ensures k + 1 < |m.chains[s]| ==> m.chains[t][j] != m.chains[s][k + 1]
      {
        FileCluster(v, m, t, j);
        if k + 1 < |m.chains[s]| { Apart(v, m, s, k + 1, t, j); }
      }
    }
  }

  /** The write does what a write should do exactly when there was nothing to do. */
  lemma MisplacedWrite(v: Volume, m: Meta, s: Slot, p: nat, data: seq<char>)
    requires WF(v, m) && Inside(v, m, s, p, |data|)
    ensures Bytes(Misplaced(v, m, s, p, data), m, s) == Overlay(Bytes(v, m, s), p, data) <==> Harmless(v, m, s, p, data)
  {
    hide EntryAt, IsDir, Overlay, Misplaced, WF, Bytes, ByteAt;
    var n, next := Max(|Bytes(v, m, s)|, p + |data|), (p / CLUSTER_SIZE + 1) * CLUSTER_SIZE;
    var b', want := Bytes(Misplaced(v, m, s, p, data), m, s), Overlay(Bytes(v, m, s), p, data);
    MisplacedAt(v, m, s, p, data, p);
    Places(p, |data|, p);
    if Harmless(v, m, s, p, data) {
      forall x | 0 <= x < n
        ensures b'[x] == want[x]
      {
        MisplacedAt(v, m, s, p, data, x);
        if p <= x < p + |data| { assert ByteAt(v.disk, m.chains[s], p + (x - p)) == data[x - p]; }
        if next <= x < next + CLUSTER_SIZE && p <= x - CLUSTER_SIZE < p + |data| {
          assert ByteAt(v.disk, m.chains[s], p + (x - CLUSTER_SIZE - p)) == data[x - CLUSTER_SIZE - p];
        }
      }
    }
    if b' == want {
      forall j | 0 <= j < |data|
        ensures ByteAt(v.disk, m.chains[s], p + j) == data[j]
      {
        MisplacedAt(v, m, s, p, data, p + j);
      }
      forall x | next <= x < |Bytes(v, m, s)| && x < next + CLUSTER_SIZE
        ensures ByteAt(v.disk, m.chains[s], x) == ByteAt(v.disk, m.chains[s], x - CLUSTER_SIZE)
      {
        MisplacedAt(v, m, s, p, data, x);
        if p <= x - CLUSTER_SIZE < p + |data| {
          assert ByteAt(v.disk, m.chains[s], p + (x - CLUSTER_SIZE - p)) == data[x - CLUSTER_SIZE - p];
        }
      }
    }
  }

  lemma WantedByte(v: Volume, m: Meta, v': Volume, s: Slot, p: nat, data: seq<char>, x: nat)
    requires s in m.chains && p <= |Bytes(v, m, s)| && x < |Bytes(v', m, s)| == Max(|Bytes(v, m, s)|, p + |data|)
    ensures x < |Bytes(v, m, s)| ==> Bytes(v, m, s)[x] == ByteAt(v.disk, m.chains[s], x)
    ensures Bytes(v', m, s)[x] == ByteAt(v'.disk, m.chains[s], x)
    ensures p <= x < p + |data| || x < |Bytes(v, m, s)|
    ensures Overlay(Bytes(v, m, s), p, data)[x] == if p <= x < p + |data| then data[x - p] else Bytes(v, m, s)[x]
  {
    hide EntryAt, ByteAt;
  }
}
