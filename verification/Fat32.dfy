/** The FAT driver (src/kernel/c/filesystem/fat32.c): the disk and the cached allocation table as
    arrays updated in place, and file handles with a cached cluster. */
module Fat32Driver {
  import opened FatLayout
  import opened FatVolume
  import opened FatTree
  import opened FatFile
  import opened FatNames
  import opened FatSpec
  import opened CStrings
  import opened FatZeroed
  import opened FatMisplaced

  /** `struct VFSState`: an open file. */
  class VFSState {
    const buffer: array<char>
    var progress_pointer: nat
    var progress_end: nat
    var current_cluster: nat
    var directory_cluster: nat
    var directory_index: nat

    constructor ()
      ensures fresh(this) && fresh(buffer) && buffer.Length == CLUSTER_SIZE
    {
      buffer := new char[CLUSTER_SIZE];
    }

    ghost function Target(): Slot
      reads this
    {
      Slot(directory_cluster, directory_index)
    }
  }

  class Fat32 {
    const disk: array<Cluster>
    const cluster_map: array<uint32>
    ghost var m: Meta

    ghost predicate Shape() {
      disk.Length >= CLUSTER_MAP_SIZE && cluster_map.Length == CLUSTER_MAP_SIZE
    }

    ghost function V(): Volume
      requires Shape()
      reads disk, cluster_map
    {
      Volume(disk[..], cluster_map[..])
    }

    ghost predicate Valid()
      reads this, disk, cluster_map
    {
      Shape() && WF(V(), m)
    }

    // ---------- handles ----------

    /** The handle is positioned in its file: for a started handle, on the cluster holding the last byte passed. */
    ghost predicate Positioned(h: VFSState)
      reads this, disk, cluster_map, h
    {
      && Shape() && h.buffer.Length == CLUSTER_SIZE
      && h.Target() in m.chains && !IsDir(EntryAt(V(), h.Target()))
      && h.progress_pointer <= h.progress_end == EntryAt(V(), h.Target()).filesize
      && m.chains[h.Target()] != [] && h.progress_end <= |m.chains[h.Target()]| * CLUSTER_SIZE
    }

    /** The handle is on the cluster holding the last byte passed, or on the first one. */
    ghost predicate OnCluster(h: VFSState)
      reads this, h
    {
      && h.Target() in m.chains && m.chains[h.Target()] != []
      && var ch := m.chains[h.Target()];
      if h.progress_pointer == 0 then h.current_cluster == ch[0]
      else (h.progress_pointer - 1) / CLUSTER_SIZE < |ch|
           && h.current_cluster == ch[(h.progress_pointer - 1) / CLUSTER_SIZE] < disk.Length
    }

    /** The handle is on the cluster holding the next byte. */
    ghost predicate Entered(h: VFSState)
      reads this, h
    {
      && h.Target() in m.chains
      && var ch := m.chains[h.Target()];
         h.progress_pointer / CLUSTER_SIZE < |ch|
           && h.current_cluster == ch[h.progress_pointer / CLUSTER_SIZE] < disk.Length
    }

    lemma MidCluster(h: VFSState)
      requires OnCluster(h) && h.progress_pointer % CLUSTER_SIZE != 0
      ensures Entered(h)
    {
      assert (h.progress_pointer - 1) / CLUSTER_SIZE == h.progress_pointer / CLUSTER_SIZE;
    }

    lemma OnClusterBound(h: VFSState)
      requires OnCluster(h)
      ensures h.progress_pointer > 0 ==> h.current_cluster < disk.Length
      ensures h.Target() in m.chains && m.chains[h.Target()] != []
    {
    }

    lemma EnteredBound(h: VFSState)
      requires Entered(h)
      ensures h.current_cluster < disk.Length && h.Target() in m.chains
      ensures h.progress_pointer < |m.chains[h.Target()]| * CLUSTER_SIZE
    {
    }

    /** A handle between two writes: its buffer is the cluster it is on, already flushed. */
    ghost predicate ForWriting(h: VFSState)
      reads this, disk, cluster_map, h, h.buffer
    {
      && Positioned(h) && OnCluster(h)
      && (h.progress_pointer > 0 ==> disk[h.current_cluster] == h.buffer[..])
    }

    /** The disk as it will be once the buffer of `h` is flushed. */
    ghost function Pending(h: VFSState): seq<Cluster>
      requires h.buffer.Length == CLUSTER_SIZE
      reads disk, h, h.buffer
    {
      if h.progress_pointer == 0 || h.current_cluster >= disk.Length then disk[..] else Flushed(h)
    }

    /** The disk as it will be once the buffer is flushed to the cluster it caches. */
    ghost function Flushed(h: VFSState): (r: seq<Cluster>)
      requires h.buffer.Length == CLUSTER_SIZE && h.current_cluster < disk.Length
      reads disk, h, h.buffer
    {
      disk[..][h.current_cluster := h.buffer[..]]
    }

    method ReadCluster(h: VFSState)
      requires h.current_cluster < disk.Length && h.buffer.Length == CLUSTER_SIZE
      modifies h.buffer
      ensures h.buffer[..] == disk[h.current_cluster]
    {
      forall i | 0 <= i < CLUSTER_SIZE {
        h.buffer[i] := disk[h.current_cluster][i];
      }
    }

    /** The search loop of fat32.c:308-312 and fat32.c:376-380. */
    method FindFree() returns (free_cluster: nat)
      requires Shape()
      ensures free_cluster <= CLUSTER_MAP_SIZE
      ensures free_cluster < CLUSTER_MAP_SIZE ==> cluster_map[free_cluster] == FAT32_FAT_EMPTY_ENTRY
      ensures forall c :: 0 <= c < free_cluster ==> cluster_map[c] != FAT32_FAT_EMPTY_ENTRY
    {
      free_cluster := 0;
      while free_cluster < CLUSTER_MAP_SIZE
        invariant free_cluster <= CLUSTER_MAP_SIZE
        invariant forall c :: 0 <= c < free_cluster ==> cluster_map[c] != FAT32_FAT_EMPTY_ENTRY
      {
        if cluster_map[free_cluster] == FAT32_FAT_EMPTY_ENTRY { break; }
        free_cluster := free_cluster + 1;
      }
    }

    /** Lines 318-320: link a free cluster behind `last`, in memory and on disk. */
    method LinkFree(last: nat, f: nat, ghost s: Slot)
      requires Shape() && last < CLUSTER_MAP_SIZE && f < CLUSTER_MAP_SIZE && s in m.chains
      modifies this`m, disk, cluster_map
      ensures V() == PutFat(old(V()), LinkCells(old(V()).fat, last, f)) && m == Extended(old(m), s, f)
    {
      hide EncodeFat;
      cluster_map[last] := f;
      cluster_map[f] := FAT32_FAT_END_OF_FILE;
      assert cluster_map[..] == LinkCells(old(V()).fat, last, f);
      disk[FAT_CLUSTER_NUMBER] := EncodeFat(cluster_map[..]);
      m := Extended(m, s, f);
    }

    /** Lines 302-303: flush the finished cluster and follow the chain. */
    method LeaveCluster(h: VFSState, ghost v0: Volume, ghost m0: Meta, ghost p0: nat, ghost data: seq<char>)
      requires Shape() && h.buffer.Length == CLUSTER_SIZE && h.Target() in m.chains
      requires h.progress_pointer > 0 && 0 <= h.progress_pointer / CLUSTER_SIZE - 1 < |m.chains[h.Target()]|
      requires h.current_cluster == m.chains[h.Target()][h.progress_pointer / CLUSTER_SIZE - 1] < disk.Length
      requires Writing(v0, m0, V(), m, h.Target(), p0, h.progress_pointer, data, Flushed(h))
      modifies disk, h`current_cluster
      ensures Writing(v0, m0, V(), m, h.Target(), p0, h.progress_pointer, data, V().disk)
      ensures h.current_cluster ==
        if h.progress_pointer / CLUSTER_SIZE < |m.chains[h.Target()]|
        then m.chains[h.Target()][h.progress_pointer / CLUSTER_SIZE]
        else FAT32_FAT_END_OF_FILE
      ensures h.progress_pointer / CLUSTER_SIZE < |m.chains[h.Target()]| ==> h.current_cluster < CLUSTER_MAP_SIZE
    {
      hide WF, EntryAt, EncodeFat, IsDir, Writing, FreeSet;
      ghost var s, p, k, v := h.Target(), h.progress_pointer, h.progress_pointer / CLUSTER_SIZE - 1, V();
      WritingFacts(v0, m0, v, m, s, p0, p, data, Flushed(h));
      ChainNext(v, m, s, k);
      Flush(v0, m0, v, m, s, p0, p, data, k, h.buffer[..]);
      disk[h.current_cluster] := h.buffer[..];
      assert V() == PutCluster(v, m.chains[s][k], h.buffer[..]);
      h.current_cluster := cluster_map[h.current_cluster];
      assert h.current_cluster == v.fat[m.chains[s][k]];
    }

    lemma OnBoundary(h: VFSState)
      requires OnCluster(h) && h.progress_pointer % CLUSTER_SIZE == 0
      requires h.progress_pointer <= |m.chains[h.Target()]| * CLUSTER_SIZE
      ensures h.Target() in m.chains && h.progress_pointer == CLUSTER_SIZE * (h.progress_pointer / CLUSTER_SIZE)
      ensures if h.progress_pointer == 0 then h.current_cluster == m.chains[h.Target()][0]
              else 0 <= h.progress_pointer / CLUSTER_SIZE - 1 < |m.chains[h.Target()]|
                   && h.current_cluster == m.chains[h.Target()][h.progress_pointer / CLUSTER_SIZE - 1] < disk.Length
    {
      assert h.progress_pointer > 0 ==>
        (h.progress_pointer - 1) / CLUSTER_SIZE == h.progress_pointer / CLUSTER_SIZE - 1;
    }

    /** Lines 300-324: flush the finished cluster, move to the next one or append a free one, load it. */
    method EnterCluster(h: VFSState, ghost v0: Volume, ghost m0: Meta, ghost p0: nat, ghost data: seq<char>)
      returns (ok: bool)
      requires Shape() && h.buffer.Length == CLUSTER_SIZE && h.Target() in m.chains && h.Target() in m0.chains
      requires m0.chains[h.Target()] != [] && h.progress_pointer % CLUSTER_SIZE == 0 && OnCluster(h)
      requires Writing(v0, m0, V(), m, h.Target(), p0, h.progress_pointer, data, Pending(h))
      modifies this`m, disk, cluster_map, h`current_cluster, h.buffer
      ensures h.Target() in m.chains && m.chains[h.Target()] != []
      ensures Writing(v0, m0, V(), m, h.Target(), p0, h.progress_pointer, data, V().disk)
      ensures ok ==> Entered(h) && h.buffer[..] == disk[h.current_cluster]
      ensures ok ==> |m.chains[h.Target()]| == Max(old(|m.chains[h.Target()]|), h.progress_pointer / CLUSTER_SIZE + 1)
      ensures !ok ==>
        h.progress_pointer == |m.chains[h.Target()]| * CLUSTER_SIZE && FreeSet(V().fat) == {} && m == old(m)
    {
      hide WF, EntryAt, EncodeFat, IsDir, Writing, FreeSet, OnCluster;
      ghost var s, p := h.Target(), h.progress_pointer;
      var old_cluster := h.current_cluster;
      WritingFacts(v0, m0, V(), m, s, p0, p, data, Pending(h));
      OnBoundary(h);
      ChainBounds(V(), m, s, if p == 0 then 0 else p / CLUSTER_SIZE - 1);
      if h.progress_pointer != 0 {
        LeaveCluster(h, v0, m0, p0, data);
      }
      ghost var v1, ch := V(), m.chains[s];
      if h.current_cluster == FAT32_FAT_END_OF_FILE {
        var free_cluster := FindFree();
        if free_cluster == CLUSTER_MAP_SIZE {
          NoneFree(v1.fat);
          return false;
        }
        Append(v0, m0, v1, m, s, p0, p, data, free_cluster);
        LinkFree(old_cluster, free_cluster, s);
        h.current_cluster := free_cluster;
      }
      ReadCluster(h);
      return true;
    }

    /** Lines 327-328. */
    method StoreByte(h: VFSState, c: char, ghost v0: Volume, ghost m0: Meta, ghost p0: nat, ghost data: seq<char>)
      requires Shape() && h.buffer.Length == CLUSTER_SIZE && h.Target() in m.chains
      requires p0 <= h.progress_pointer < p0 + |data| && c == data[h.progress_pointer - p0]
      requires h.current_cluster < disk.Length && Entered(h)
      requires Writing(v0, m0, V(), m, h.Target(), p0, h.progress_pointer, data, Flushed(h))
      modifies h`progress_pointer, h.buffer
      ensures h.progress_pointer == old(h.progress_pointer) + 1 && OnCluster(h) && h.current_cluster < disk.Length
      ensures Writing(v0, m0, V(), m, h.Target(), p0, h.progress_pointer, data, Flushed(h))
    {
      hide WF, EntryAt, IsDir, FreeSet, Writing;
      ghost var b := h.buffer[..];
      Poke(v0, m0, V(), m, h.Target(), p0, h.progress_pointer, data, b, c);
      h.buffer[h.progress_pointer % CLUSTER_SIZE] := c;
      assert h.buffer[..] == b[h.progress_pointer % CLUSTER_SIZE := c];
      h.progress_pointer := h.progress_pointer + 1;
    }

    /** Lines 298-328: one turn of the loop. */
    method StoreNext(h: VFSState, c: char, ghost v0: Volume, ghost m0: Meta, ghost p0: nat, ghost data: seq<char>)
      returns (ok: bool)
      requires Shape() && h.buffer.Length == CLUSTER_SIZE && h.Target() in m0.chains && OnCluster(h)
      requires p0 <= h.progress_pointer < p0 + |data| && c == data[h.progress_pointer - p0]
      requires m0.chains[h.Target()] != []
      requires Writing(v0, m0, V(), m, h.Target(), p0, h.progress_pointer, data, Pending(h))
      requires |m.chains[h.Target()]| == Max(|m0.chains[h.Target()]|, Clusters(h.progress_pointer))
      modifies this`m, disk, cluster_map, h`current_cluster, h`progress_pointer, h.buffer
      ensures h.Target() in m.chains && m.chains[h.Target()] != []
      ensures |m.chains[h.Target()]| == Max(|m0.chains[h.Target()]|, Clusters(h.progress_pointer))
      ensures ok ==>
        h.progress_pointer == old(h.progress_pointer) + 1 && OnCluster(h)
        && Writing(v0, m0, V(), m, h.Target(), p0, h.progress_pointer, data, Pending(h))
      ensures !ok ==>
        h.progress_pointer == old(h.progress_pointer) == |m.chains[h.Target()]| * CLUSTER_SIZE && FreeSet(V().fat) == {}
        && Writing(v0, m0, V(), m, h.Target(), p0, h.progress_pointer, data, V().disk)
    {
      hide WF, EntryAt, EncodeFat, IsDir, Writing, FreeSet, OnCluster, Entered, Clusters, Max;
      OnClusterBound(h);
      ClustersStep(h.progress_pointer, |m0.chains[h.Target()]|);
      if h.progress_pointer % CLUSTER_SIZE == 0 {
        ok := EnterCluster(h, v0, m0, p0, data);
        if !ok {
          return;
        }
        EnteredBound(h);
        assert Flushed(h) == disk[..];
      } else {
        MidCluster(h);
        EnteredBound(h);
      }
      StoreByte(h, c, v0, m0, p0, data);
      return true;
    }

    /** Lines 294-330: store the bytes one by one, entering a cluster at every boundary. */
    method StoreBytes(h: VFSState, buffer: array<char>, size: int, ghost v0: Volume, ghost m0: Meta,
                      ghost data: seq<char>)
      returns (write_count: int)
      requires ForWriting(h) && buffer != h.buffer && 0 <= size <= buffer.Length
      requires data == buffer[..size] && v0 == V() && m0 == m
      requires Valid()
      modifies this`m, disk, cluster_map, h`current_cluster, h`progress_pointer, h.buffer
      ensures h.Target() in m.chains && m.chains[h.Target()] != []
      ensures write_count == size || write_count == -1
      ensures old(h.progress_pointer) <= h.progress_pointer <= old(h.progress_pointer) + size
      ensures write_count == size ==>
        h.progress_pointer == old(h.progress_pointer) + size && OnCluster(h)
        && (h.progress_pointer == 0 ==> V() == v0 && m == m0 && h.buffer[..] == old(h.buffer[..]))
        && Writing(v0, m0, V(), m, h.Target(), old(h.progress_pointer), h.progress_pointer, data, Pending(h))
      ensures write_count == -1 ==>
        h.progress_pointer < old(h.progress_pointer) + size
        && Writing(v0, m0, V(), m, h.Target(), old(h.progress_pointer), h.progress_pointer, data, V().disk)
      ensures |m.chains[h.Target()]| == Max(|m0.chains[h.Target()]|, Clusters(h.progress_pointer))
      ensures write_count == -1 <==>
        Clusters(old(h.progress_pointer) + size) > |m0.chains[h.Target()]| + |FreeSet(v0.fat)|
    {
      hide WF, EntryAt, EncodeFat, IsDir, Writing, FreeSet, OnCluster, Clusters, Max;
      ghost var s, p0 := h.Target(), h.progress_pointer;
      StartWriting(v0, m0, s, p0, data);
      OnClusterBound(h);
      if h.progress_pointer > 0 {
        assert Flushed(h) == disk[..];
      }
      WritingFacts(v0, m0, V(), m, s, p0, p0, data, Pending(h));
      write_count := 0;
      ClustersFit(p0, |m0.chains[s]|);
      while write_count < size
        invariant 0 <= write_count <= size && h.progress_pointer == p0 + write_count && h.Target() == s
        invariant data == buffer[..size]
        invariant s in m.chains && m.chains[s] != []
        invariant |m.chains[s]| == Max(|m0.chains[s]|, Clusters(h.progress_pointer))
        invariant h.progress_pointer <= |m.chains[s]| * CLUSTER_SIZE
        invariant |FreeSet(V().fat)| + |m.chains[s]| == |FreeSet(v0.fat)| + |m0.chains[s]|
        invariant OnCluster(h)
        invariant h.progress_pointer == 0 ==> V() == v0 && m == m0 && h.buffer[..] == old(h.buffer[..])
        invariant Writing(v0, m0, V(), m, s, p0, h.progress_pointer, data, Pending(h))
      {
        var ok := StoreNext(h, buffer[write_count], v0, m0, p0, data);
        if !ok {
          WritingFacts(v0, m0, V(), m, s, p0, h.progress_pointer, data, V().disk);
          FullClusters(h.progress_pointer, p0 + size, |m.chains[s]|);
          return -1;
        }
        WritingFacts(v0, m0, V(), m, s, p0, h.progress_pointer, data, Pending(h));
        write_count := write_count + 1;
      }
      ClustersFit(h.progress_pointer, |m.chains[s]|);
    }

    /** What a call of `write_vfs` on `h` did, given its data and its answer. */
    twostate predicate Wrote(h: VFSState, new data: seq<char>, r: int)
      requires Shape() && h.buffer.Length == CLUSTER_SIZE
      reads this, disk, cluster_map, h
    {
      Written(old(V()), old(m), V(), m, h.Target(), old(h.progress_pointer), h.progress_pointer, old(h.buffer[..]),
        data, r)
    }

    /** `write_vfs`. */
    method WriteVfs(h: VFSState, buffer: array<char>, size: int) returns (r: int)
      requires Shape() && h.buffer.Length == CLUSTER_SIZE && buffer != h.buffer && size <= buffer.Length
      requires ForWriting(h)
      requires Valid()
      modifies this`m, disk, cluster_map, h, h.buffer
      ensures size < 0 ==> r == 0
      ensures 0 <= size ==> r == size || r == -1
      ensures r > 0 || (r == 0 && old(h.progress_pointer) > 0) ==>
        h.progress_pointer == old(h.progress_pointer) + r
        && Bytes(V(), m, h.Target()) == Overlay(old(Bytes(V(), m, h.Target())), old(h.progress_pointer), buffer[..r])
      ensures h.Target() == old(h.Target()) && h.Target() in old(m.chains)
      ensures var free := |set c | 0 <= c < CLUSTER_MAP_SIZE && old(V()).fat[c] == 0|;
        r == -1 <==> old(h.progress_pointer) + size > (|old(m.chains)[h.Target()]| + free) * CLUSTER_SIZE
      ensures Valid() && (r >= 0 ==> ForWriting(h))
      ensures Wrote(h, if size < 0 then [] else buffer[..size], r)
    {
      hide WF, EntryAt, EncodeFat, IsDir, Writing, FreeSet, SameNames, Kept, Overlay, Content, Finished, Stopped,
           Written, OnCluster;
      ghost var v0, m0, s, p0 := V(), m, h.Target(), h.progress_pointer;
      var n := if size < 0 then 0 else size;
      ghost var data := buffer[..n];
      SizeCovered(v0, m0, s);
      OnClusterBound(h);
      var write_count := StoreBytes(h, buffer, n, v0, m0, data);
      if write_count == -1 {
        WritingFacts(v0, m0, V(), m, s, p0, h.progress_pointer, data, V().disk);
        FullWrite(v0, m0, V(), m, s, p0, h.progress_pointer, data);
        FullWritten(v0, m0, V(), m, s, p0, h.progress_pointer, old(h.buffer[..]), data);
        WrittenMeans(v0, m0, V(), m, s, p0, h.progress_pointer, old(h.buffer[..]), data, -1);
        return -1;
      }
      FinishBytes(h, v0, m0, p0, data, old(h.buffer[..]));
      WrittenMeans(v0, m0, V(), m, s, p0, h.progress_pointer, old(h.buffer[..]), data, |data|);
      return write_count;
    }

    /** Lines 331-340. */
    method FinishBytes(h: VFSState, ghost v0: Volume, ghost m0: Meta, ghost p0: nat, ghost data: seq<char>,
                       ghost stale: Cluster)
      requires Shape() && h.buffer.Length == CLUSTER_SIZE && h.Target() in m0.chains
      requires h.progress_pointer == p0 + |data| && OnCluster(h)
      requires h.progress_pointer == 0 ==> V() == v0 && m == m0 && h.buffer[..] == stale
      requires p0 <= h.progress_end == |Bytes(v0, m0, h.Target())|
      requires Clusters(h.progress_pointer) <= |m0.chains[h.Target()]| + |FreeSet(v0.fat)|
      requires |m.chains[h.Target()]| == Max(|m0.chains[h.Target()]|, Clusters(h.progress_pointer))
      requires Writing(v0, m0, V(), m, h.Target(), p0, h.progress_pointer, data, Pending(h))
      requires WF(v0, m0) && !IsDir(EntryAt(v0, h.Target()))
      modifies disk, h`progress_end
      ensures Written(v0, m0, V(), m, h.Target(), p0, h.progress_pointer, stale, data, |data|)
      ensures Valid() && ForWriting(h)
    {
      hide WF, EntryAt, EncodeFat, IsDir, Writing, FreeSet, Overlay, Content, Finished, Written;
      ghost var s := h.Target();
      ghost var written := FlushLast(h, v0, m0, p0, data);
      WritingFacts(v0, m0, V(), m, s, p0, p0 + |written|, written, V().disk);
      SizeCovered(v0, m0, s);
      if h.progress_pointer > h.progress_end {
        h.progress_end := h.progress_pointer;
      }
      RefreshSize(h, v0, m0, p0, written);
      FinishedWritten(v0, m0, V(), m, s, p0, h.progress_pointer, stale, data, h.progress_end);
    }

    /** Line 331: the buffer is flushed unconditionally. */
    method FlushLast(h: VFSState, ghost v0: Volume, ghost m0: Meta, ghost p0: nat, ghost data: seq<char>)
      returns (ghost written: seq<char>)
      requires Shape() && h.buffer.Length == CLUSTER_SIZE && h.Target() in m.chains && h.Target() in m0.chains
      requires h.progress_pointer == p0 + |data| && OnCluster(h)
      requires h.progress_pointer == 0 ==> V() == v0 && m == m0
      requires Writing(v0, m0, V(), m, h.Target(), p0, h.progress_pointer, data, Pending(h))
      modifies disk
      ensures written == if h.progress_pointer == 0 then h.buffer[..] else data
      ensures h.current_cluster < disk.Length && disk[h.current_cluster] == h.buffer[..]
      ensures Writing(v0, m0, V(), m, h.Target(), p0, p0 + |written|, written, V().disk)
      ensures h.current_cluster in m.chains[h.Target()]
    {
      hide EntryAt, EncodeFat, IsDir, FreeSet, WF, Writing;
      ghost var s, p, v1 := h.Target(), h.progress_pointer, V();
      WritingFacts(v0, m0, v1, m, s, p0, p, data, Pending(h));
      ghost var last := if p == 0 then 0 else (p - 1) / CLUSTER_SIZE;
      ChainBounds(v1, m, s, last);
      if p == 0 {
        StaleFlush(v1, m, s, h.buffer[..]);
      } else {
        Flush(v0, m0, v1, m, s, p0, p, data, last, h.buffer[..]);
      }
      disk[h.current_cluster] := h.buffer[..];
      assert V() == PutCluster(v1, m.chains[s][last], h.buffer[..]);
      written := if p == 0 then h.buffer[..] else data;
    }

    /** Lines 336-340: the directory entry records the size. */
    method RefreshSize(h: VFSState, ghost v0: Volume, ghost m0: Meta, ghost p0: nat, ghost data: seq<char>)
      requires Shape() && h.Target() in m.chains && h.Target() in m0.chains && p0 <= |Bytes(v0, m0, h.Target())|
      requires h.progress_end <= Max(p0 + |data|, |Bytes(v0, m0, h.Target())|)
      requires h.progress_end <= |m.chains[h.Target()]| * CLUSTER_SIZE
      requires Writing(v0, m0, V(), m, h.Target(), p0, p0 + |data|, data, V().disk)
      requires WF(v0, m0)
      modifies disk
      ensures Finished(v0, m0, V(), m, h.Target(), p0, data, h.progress_end)
      ensures forall c | c in m.chains[h.Target()] && c < disk.Length :: disk[c] == old(disk[c])
    {
      hide EntryAt, EncodeFat, IsDir, FreeSet, WF, Writing, Finished, Overlay, Content, Bytes;
      ghost var s, v2 := h.Target(), V();
      WritingFacts(v0, m0, v2, m, s, p0, p0 + |data|, data, v2.disk);
      SlotDir(v2, m, s);
      SizeCovered(v2, m, s);
      var dir := DecodeTable(disk[h.directory_cluster]);
      TableEntry(v2, s);
      dir := dir[h.directory_index := dir[h.directory_index].(filesize := h.progress_end)];
      disk[h.directory_cluster] := EncodeTable(dir);
      assert V() == PutEntry(v2, s, EntryAt(v2, s).(filesize := h.progress_end));
      FinishWrite(v0, m0, v2, m, s, p0, data, h.progress_end, V());
    }

    static lemma TableEntry(v: Volume, s: Slot)
      requires s.dir < |v.disk| && s.idx < MAX_DIR_TABLE_ENTRY
      ensures Table(v, s.dir) == DecodeTable(v.disk[s.dir]) && EntryAt(v, s) == Table(v, s.dir)[s.idx]
    {
    }

    // ---------- lookup ----------

    static method FindEntry(dir: DirTable, name: seq<char>) returns (i: nat)
      ensures i == FindName(dir, name, RESERVED_ENTRY)
    {
      i := RESERVED_ENTRY;
      while i < MAX_DIR_TABLE_ENTRY
        invariant RESERVED_ENTRY <= i <= MAX_DIR_TABLE_ENTRY
        invariant FindName(dir, name, RESERVED_ENTRY) == FindName(dir, name, i)
      {
        if Used(dir[i]) && FullName(dir[i]) == name { break; }
        i := i + 1;
      }
    }

    /** `get_entry_with_parent_cluster_and_index`: the walk of the path's components. `index` is left
        alone for the root, so it is only meaningful for a non-empty path. */
    method GetEntryWithParentClusterAndIndex(path: seq<char>)
      returns (status: int, entry: DirEntry, parent_cluster: nat, index: nat)
      requires Valid() && NUL !in path
      ensures Tokens(path, '/') == [] ==>
        status == 0 && parent_cluster == ROOT_CLUSTER_NUMBER && entry == EntryAt(V(), Slot(ROOT_CLUSTER_NUMBER, 0))
      ensures Tokens(path, '/') != [] ==>
        match Walk(V(), ROOT_CLUSTER_NUMBER, Tokens(path, '/'))
        case Some(s) => status == 0 && Slot(parent_cluster, index) == s && entry == EntryAt(V(), s) && s in m.chains
        case None => status == -1
    {
      hide EntryAt, FullName, IsLink, Tokens, Walk, WF, ClusterOf, Later, IsDir, Table, FindName, CStr, Cut;
      ghost var v := V();
      var copy := new char[|path| + 1](i requires 0 <= i <= |path| => if i < |path| then path[i] else NUL);
      CStrIs(copy[..], path);
      assert copy[..][|path|] == NUL && copy[0..] == copy[..];
      var tok := new StrTok();
      index := 0;
      var current := tok.First(copy, 0, '/');
      var d := ROOT_CLUSTER_NUMBER;
      RootDir(v, m);
      var dir := DecodeTable(disk[d]);
      TableAt(v, m, d);
      CutToken(path, 0, copy[..], current);
      if current == -1 {
        return 0, dir[0], ROOT_CLUSTER_NUMBER, index;
      }
      var name := CStr(copy[current..]);
      while true
        invariant tok.Valid() && tok.current_str == copy && fresh(tok) && fresh(copy)
        invariant V() == v && WF(v, m) && d in m.depth && d < disk.Length && dir == Table(v, d)
        invariant Walk(v, ROOT_CLUSTER_NUMBER, Tokens(path, '/')) == Walk(v, d, [name] + Tokens(tok.Rest(), '/'))
        invariant Tokens(path, '/') != []
        decreases |Tokens(tok.Rest(), '/')|
      {
        TableAt(v, m, d);
        parent_cluster := ClusterOf(dir[0]);
        var i := FindEntry(dir, name);
        WalkStep(v, m, d, name, Tokens(tok.Rest(), '/'));
        if i == MAX_DIR_TABLE_ENTRY {
          return -1, dir[0], parent_cluster, index;
        }
        index := i;
        ghost var rest, i0, buf := tok.Rest(), tok.i, copy[..];
        current := tok.Next('/');
        CutToken(rest, i0, copy[..], current);
        if current == -1 {
          return 0, dir[i], parent_cluster, index;
        }
        if !IsDir(dir[i]) {
          return -1, dir[i], parent_cluster, index;
        }
        name := CStr(copy[current..]);
        d := ClusterOf(dir[i]);
        TableAt(v, m, d);
        dir := DecodeTable(disk[d]);
      }
    }

    static lemma CutToken(rest: seq<char>, from: nat, buf': seq<char>, start: int)
      requires exists buf: seq<char> :: Cut(buf, from, rest, '/', buf', start)
      ensures start == -1 <==> Tokens(rest, '/') == []
      ensures start >= 0 ==> start <= |buf'| && Tokens(rest, '/') == [CStr(buf'[start..])] + Later(rest, '/')
      ensures start == -1 || start >= 0
    {
    }

    static lemma RootDir(v: Volume, mm: Meta)
      requires WF(v, mm)
      ensures ROOT_CLUSTER_NUMBER in mm.depth
    {
    }

    static lemma TableAt(v: Volume, mm: Meta, d: nat)
      requires WF(v, mm) && d in mm.depth
      ensures d < CLUSTER_MAP_SIZE && Table(v, d) == DecodeTable(v.disk[d]) && ClusterOf(Table(v, d)[0]) == d
      ensures forall i :: 0 <= i < MAX_DIR_TABLE_ENTRY ==> EntryAt(v, Slot(d, i)) == Table(v, d)[i]
    {
      assert Linked(v, mm, d);
    }

    /** One step of the walk, on the entry the search loop stops at. */
    static lemma WalkStep(v: Volume, mm: Meta, d: nat, name: seq<char>, rest: Path)
      requires WF(v, mm) && d in mm.depth
      ensures var i := FindName(Table(v, d), name, RESERVED_ENTRY);
        if i == MAX_DIR_TABLE_ENTRY then Walk(v, d, [name] + rest) == None
        else
          Slot(d, i) in mm.chains
          && (if rest == [] then Walk(v, d, [name] + rest) == Some(Slot(d, i))
              else if IsDir(Table(v, d)[i]) then
                ClusterOf(Table(v, d)[i]) in mm.depth
                && Walk(v, d, [name] + rest) == Walk(v, ClusterOf(Table(v, d)[i]), rest)
              else Walk(v, d, [name] + rest) == None)
    {
      hide Table, FullName, ClusterOf, WF;
      FoundSlot(v, mm, d, name);
      var i := FindName(Table(v, d), name, RESERVED_ENTRY);
      assert ([name] + rest)[1..] == rest;
      if i < MAX_DIR_TABLE_ENTRY && IsDir(Table(v, d)[i]) {
        ChildDir(v, mm, Slot(d, i));
      }
    }

    // ---------- creating ----------

    /** The loop of lines 362-371. */
    static method ScanDirectory(dir: DirTable, name: seq<char>) returns (duplicate: bool, empty: int)
      ensures duplicate <==> FindName(dir, name, RESERVED_ENTRY) < MAX_DIR_TABLE_ENTRY
      ensures !duplicate ==>
        if empty == -1 then forall j :: RESERVED_ENTRY <= j < MAX_DIR_TABLE_ENTRY ==> Used(dir[j])
        else RESERVED_ENTRY <= empty < MAX_DIR_TABLE_ENTRY && !Used(dir[empty])
             && forall j :: RESERVED_ENTRY <= j < empty ==> Used(dir[j])
    {
      hide FullName;
      duplicate, empty := false, -1;
      for i := RESERVED_ENTRY to MAX_DIR_TABLE_ENTRY
        invariant FindName(dir, name, RESERVED_ENTRY) == FindName(dir, name, i)
        invariant if empty == -1 then forall j :: RESERVED_ENTRY <= j < i ==> Used(dir[j])
          else RESERVED_ENTRY <= empty < i && !Used(dir[empty])
               && forall j :: RESERVED_ENTRY <= j < empty ==> Used(dir[j])
      {
        if Used(dir[i]) {
          if FullName(dir[i]) == name {
            return true, empty;
          }
        } else if empty == -1 {
          empty := i;
        }
      }
    }

    /** `mkgeneral`. The parent must not be a file: its data would be taken for a directory table. */
    method MkGeneral(path: seq<char>, name: seq<char>, ext: seq<char>, aFile: bool) returns (r: int, ghost s: Slot)
      requires NUL !in path && NUL !in name && NUL !in ext && |name| <= 7 && |ext| <= 2
      requires Shape() && NotAFile(V(), Tokens(path, '/'))
      requires Valid()
      modifies this`m, disk, cluster_map
      ensures Valid() && (r == 0 || r == -1)
      ensures r == 0 <==> MayCreate(old(V()), path, name)
      ensures r == -1 ==> V() == old(V()) && m == old(m)
      ensures r == 0 ==> CreatedAs(old(V()), old(m), V(), m, s, path, name, ext, aFile)
      ensures r == 0 ==> forall j :: 2 <= j < s.idx ==> Used(EntryAt(old(V()), Slot(s.dir, j)))
      ensures r == 0 ==> forall c :: 0 <= c < m.chains[s][0] && c < 512 ==> old(V()).fat[c] != 0
    {
      hide EntryAt, FullName, IsLink, Tokens, Walk, WF, ClusterOf, IsDir, Table, FindName, CStr, Creatable, CreateEntry,
           NewEntry;
      s := Slot(0, 0);
      if path == "." || path == ".." {
        return -1, s;
      }
      ghost var v, p := V(), Tokens(path, '/');
      TargetDirPath(v, m, p);
      var status, entry, _, _ := GetEntryWithParentClusterAndIndex(path);
      if status != 0 {
        return -1, s;
      }
      TableAt(v, m, ROOT_CLUSTER_NUMBER);
      var parent_cluster := ClusterOf(entry);
      assert TargetDir(v, p) == Some(parent_cluster);
      TableAt(v, m, parent_cluster);
      var dir := DecodeTable(disk[parent_cluster]);
      var duplicate, empty := ScanDirectory(dir, name);
      if duplicate || empty == -1 {
        return -1, s;
      }
      var free_cluster := FindFree();
      if free_cluster == CLUSTER_MAP_SIZE {
        return -1, s;
      }
      var slot := Slot(parent_cluster, empty);
      s := slot;
      var e := NewEntry(dir[empty], name, ext, aFile, free_cluster);
      NewEntryReads(dir[empty], name, ext, aFile, free_cluster);
      IsCreatable(v, m, s, e, free_cluster);
      CreateKeepsWF(v, m, s, e, free_cluster);
      PutNewEntry(dir, slot, e, free_cluster, aFile);
      m := Created(m, s, free_cluster, !aFile);
      return 0, s;
    }

    static lemma IsCreatable(v: Volume, mm: Meta, s: Slot, e: DirEntry, f: nat)
      requires s.dir in mm.depth && RESERVED_ENTRY <= s.idx < MAX_DIR_TABLE_ENTRY && !Used(EntryAt(v, s))
      requires f < CLUSTER_MAP_SIZE && v.fat[f] == FAT32_FAT_EMPTY_ENTRY
      requires Used(e) && Terminated(e) && ClusterOf(e) == f && e.filesize == 0
      ensures Creatable(v, mm, s, e, f)
    {
    }

    /** Lines 394-403. */
    method PutNewEntry(dir: DirTable, s: Slot, e: DirEntry, f: nat, aFile: bool)
      requires Shape() && s.dir < CLUSTER_MAP_SIZE && s.idx < MAX_DIR_TABLE_ENTRY && f < CLUSTER_MAP_SIZE
      requires dir == Table(V(), s.dir) && IsDir(e) == !aFile
      modifies disk, cluster_map
      ensures V() == CreateEntry(old(V()), s, e, f)
    {
      hide EncodeTable, EncodeFat, EmptyTable, IsDir, Table;
      disk[s.dir] := EncodeTable(dir[s.idx := e]);
      assert V() == PutEntry(old(V()), s, e);
      cluster_map[f] := FAT32_FAT_END_OF_FILE;
      disk[FAT_CLUSTER_NUMBER] := EncodeFat(cluster_map[..]);
      assert cluster_map[..] == old(V()).fat[f := FAT32_FAT_END_OF_FILE];
      if !aFile {
        disk[f] := EncodeTable(EmptyTable(f, s.dir));
      }
      assert V() == CreateEntry(old(V()), s, e, f);
    }

    /** `parse_path`: cut the path at its last slash, in place. */
    static method ParsePath(path: array<char>, ghost text: seq<char>) returns (i: int)
      requires path.Length > |text| && path[..|text|] == text && path[|text|] == NUL && NUL !in text
      modifies path
      ensures i == LastSlash(text)
      ensures path[..] == if i == -1 then old(path[..]) else old(path[..])[i := NUL]
    {
      var size: int := StrLen(path, text);
      i := size - 1;
      while i >= 0
        invariant -1 <= i < size && LastSlash(text) == LastSlash(text[..i + 1])
      {
        if path[i] == '/' { break; }
        assert text[..i + 1][..i] == text[..i];
        i := i - 1;
      }
      if i >= 0 {
        path[i] := NUL;
      }
    }

    /** `mkfile`. The name must hold a character other than a dot: `strtok` gives no token otherwise. */
    method MkFile(path: seq<char>) returns (r: int, ghost s: Slot)
      requires NUL !in path && Tokens(NamePart(path), '.') != []
      requires Shape() && NotAFile(V(), Tokens(ParentPart(path), '/'))
      requires Valid()
      modifies this`m, disk, cluster_map
      ensures Valid() && (r == 0 || r == -1)
      ensures r == 0 <==>
        |Stem(NamePart(path))| <= 7 && |Extension(NamePart(path))| <= 2
        && MayCreate(old(V()), ParentPart(path), Stem(NamePart(path)))
      ensures r == -1 ==> V() == old(V()) && m == old(m)
      ensures r == 0 ==>
        CreatedAs(old(V()), old(m), V(), m, s, ParentPart(path), Stem(NamePart(path)), Extension(NamePart(path)), true)
    {
      hide Tokens, WF, CStr, MayCreate, CreatedAs, Walk, TargetDir, Later, LastSlash;
      var size := |path| + 1;
      var copy := new char[size](i requires 0 <= i < size => if i < |path| then path[i] else NUL);
      assert copy[..|path|] == path;
      var i := ParsePath(copy, path);
      PathParts(path);
      var name := NamePart(path);
      var parent := ParentPart(path);
      assert copy[i + 1..][..|name|] == name && copy[i + 1..][|name|] == NUL;
      CStrIs(copy[i + 1..], name);
      var filename, extension := SplitName(copy, i + 1, name);
      StemPlain(name);
      s := Slot(0, 0);
      if |filename| > 7 || |extension| > 2 {
        return -1, s;
      }
      r, s := MkGeneral(parent, filename, extension, true);
    }

    /** Lines 436-439: the two `strtok` calls on the name at `&str[from]`. */
    static method SplitName(str: array<char>, from: nat, ghost name: seq<char>)
      returns (filename: seq<char>, extension: seq<char>)
      requires from <= str.Length && NUL in str[from..] && CStr(str[from..]) == name && Tokens(name, '.') != []
      modifies str
      ensures filename == Stem(name) && extension == Extension(name)
    {
      hide Tokens, CStr, Cut, Later;
      var tok := new StrTok();
      var first := tok.First(str, from, '.');
      DotToken(name, from, str[..], first);
      filename := CStr(str[first..]);
      ghost var rest, i0 := tok.Rest(), tok.i;
      var second := tok.Next('.');
      DotToken(rest, i0, str[..], second);
      extension := if second == -1 then [] else CStr(str[second..]);
      StemOf(name, rest, filename);
    }

    static lemma StemOf(name: seq<char>, rest: seq<char>, filename: seq<char>)
      requires Tokens(name, '.') == [filename] + Tokens(rest, '.')
      ensures Stem(name) == filename && Extension(name) == if Tokens(rest, '.') == [] then [] else Tokens(rest, '.')[0]
    {
      hide Tokens;
    }

    static lemma DotToken(rest: seq<char>, from: nat, buf': seq<char>, start: int)
      requires exists buf: seq<char> :: Cut(buf, from, rest, '.', buf', start)
      ensures start == -1 <==> Tokens(rest, '.') == []
      ensures start >= 0 ==> start <= |buf'| && Tokens(rest, '.') == [CStr(buf'[start..])] + Later(rest, '.')
      ensures start == -1 || start >= 0
      ensures Tokens(rest, '.') == [] ==> Later(rest, '.') == []
    {
    }

    /** The two strings `parse_path` leaves in the buffer it cut. */
    static method SplitPath(path: array<char>, ghost text: seq<char>) returns (parent: seq<char>, name: seq<char>)
      requires path.Length > |text| && path[..|text|] == text && path[|text|] == NUL && NUL !in text
      modifies path
      ensures parent == ParentPart(text) && name == NamePart(text)
      ensures path[..] == if LastSlash(text) == -1 then old(path[..]) else old(path[..])[LastSlash(text) := NUL]
    {
      hide CStr, LastSlash;
      var i := ParsePath(path, text);
      PathParts(text);
      ghost var n := NamePart(text);
      assert n == text[i + 1..];
      assert path[i + 1..][..|n|] == n && path[i + 1..][|n|] == NUL;
      CStrIs(path[i + 1..], n);
      if i >= 0 {
        assert path[..][..i] == ParentPart(text) && path[..][i] == NUL;
        CStrIs(path[..], ParentPart(text));
      }
      name := CStr(path[i + 1..]);
      parent := if i == -1 then [] else CStr(path[..]);
    }

    /** `mkdir`, which cuts the caller's own path at its last slash. */
    method MkDir(path: array<char>, ghost text: seq<char>) returns (r: int, ghost s: Slot)
      requires path.Length > |text| && path[..|text|] == text && path[|text|] == NUL && NUL !in text
      requires Shape() && NotAFile(V(), Tokens(ParentPart(text), '/'))
      requires Valid()
      modifies this`m, disk, cluster_map, path
      ensures Valid() && (r == 0 || r == -1)
      ensures r == 0 <==>
        '.' !in NamePart(text) && |NamePart(text)| <= 7 && MayCreate(old(V()), ParentPart(text), NamePart(text))
      ensures r == -1 ==> V() == old(V()) && m == old(m)
      ensures r == 0 ==> CreatedAs(old(V()), old(m), V(), m, s, ParentPart(text), NamePart(text), [], false)
      ensures path[..] == if LastSlash(text) == -1 then old(path[..]) else old(path[..])[LastSlash(text) := NUL]
    {
      hide Tokens, WF, CStr, MayCreate, CreatedAs, Walk, TargetDir, LastSlash;
      s := Slot(0, 0);
      PathParts(text);
      var parent, dir := SplitPath(path, text);
      if '.' in dir || |dir| > 7 {
        return -1, s;
      }
      r, s := MkGeneral(parent, dir, [], false);
    }

    // ---------- deleting ----------

    /** `get_entry_count`. */
    method GetEntryCount(entry: DirEntry) returns (count: nat)
      requires IsDir(entry) ==> ClusterOf(entry) < disk.Length
      ensures count == if IsDir(entry) then CountUsed(DecodeTable(disk[ClusterOf(entry)]), RESERVED_ENTRY) else 0
    {
      hide DecodeTable, ClusterOf, IsDir, Used;
      if !IsDir(entry) {
        return 0;
      }
      count := 0;
      var dir := DecodeTable(disk[ClusterOf(entry)]);
      for i := RESERVED_ENTRY to MAX_DIR_TABLE_ENTRY
        invariant count + CountUsed(dir, i) == CountUsed(dir, RESERVED_ENTRY)
      {
        if Used(dir[i]) {
          count := count + 1;
        }
      }
    }

    /** Lines 481-486: empty the cells of a chain one after the other. */
    method FreeChain(first: nat, ghost s: Slot)
      requires Valid() && s in m.chains && m.chains[s] != [] && first == m.chains[s][0]
      modifies cluster_map
      ensures cluster_map[..] == FreeCells(old(V()).fat, m.chains[s])
    {
      hide Tree, Header, EncodeFat;
      ghost var fat, ch, k := V().fat, m.chains[s], 0;
      assert IsChain(fat, ch);
      var current_cluster := first;
      assert fat == FreeCells(fat, ch[..0]);
      while current_cluster != FAT32_FAT_END_OF_FILE
        invariant 0 <= k <= |ch| && cluster_map[..] == FreeCells(fat, ch[..k])
        invariant current_cluster == if k < |ch| then ch[k] else FAT32_FAT_END_OF_FILE
        decreases |ch| - k
      {
        FreeStep(fat, ch, k);
        var next_cluster := cluster_map[current_cluster];
        cluster_map[current_cluster] := FAT32_FAT_EMPTY_ENTRY;
        current_cluster := next_cluster;
        k := k + 1;
      }
      assert ch[..|ch|] == ch;
    }

    static lemma FreeStep(fat: FatMap, ch: seq<nat>, k: nat)
      requires IsChain(fat, ch)
      ensures k < |ch| ==>
        FreeCells(fat, ch[..k])[ch[k]] == (if k + 1 < |ch| then ch[k + 1] else FAT32_FAT_END_OF_FILE)
        && FreeCells(fat, ch[..k + 1]) == FreeCells(fat, ch[..k])[ch[k] := FAT32_FAT_EMPTY_ENTRY]
      ensures forall j :: 0 <= j < |ch| ==> ch[j] < CLUSTER_MAP_SIZE
    {
      if k < |ch| {
        assert Step(fat, ch, k);
        if ch[k] in ch[..k] {
          var j :| 0 <= j < k && ch[j] == ch[k];
          ChainDistinct(fat, ch, j, k);
        }
        assert ch[..k + 1] == ch[..k] + [ch[k]];
      }
    }

    /** `delete_vfs`. For the path of the root the index of the entry is never set, so the root must not be
        empty; it is then refused like every directory with entries. */
    method DeleteVfs(path: seq<char>) returns (r: int)
      requires NUL !in path && Shape()
      requires Tokens(path, '/') == [] ==> CountUsed(Table(V(), ROOT_CLUSTER_NUMBER), RESERVED_ENTRY) > 0
      requires Valid()
      modifies this`m, disk, cluster_map
      ensures Valid() && (r == 0 || r == -1)
      ensures r == -1 ==> V() == old(V()) && m == old(m)
      ensures r == 0 <==>
        Tokens(path, '/') != [] && Walk(old(V()), ROOT_CLUSTER_NUMBER, Tokens(path, '/')).Some?
        && Removable(old(V()), old(m), Walk(old(V()), ROOT_CLUSTER_NUMBER, Tokens(path, '/')).value)
      ensures r == 0 ==>
        DeletedSlot(old(V()), old(m), V(), m, Walk(old(V()), ROOT_CLUSTER_NUMBER, Tokens(path, '/')).value)
    {
      hide EntryAt, FullName, IsLink, Tokens, Walk, WF, ClusterOf, IsDir, Table, Removable, CountUsed, DeletedSlot;
      ghost var v := V();
      TargetDirPath(v, m, []);
      TableAt(v, m, ROOT_CLUSTER_NUMBER);
      var status, entry, parent_cluster, index := GetEntryWithParentClusterAndIndex(path);
      if status != 0 {
        return status;
      }
      ghost var s := Slot(parent_cluster, index);
      if Tokens(path, '/') != [] {
        EntryCluster(v, m, s);
        SlotDir(v, m, s);
      }
      var count := GetEntryCount(entry);
      if count != 0 {
        if Tokens(path, '/') != [] {
          NotRemovable(v, m, s);
        }
        return -1;
      }
      RootCount(v, m);
      EmptyRemovable(v, m, s);
      RemoveKeepsWF(v, m, s);
      RemoveSlot(s, entry, parent_cluster, index);
      return 0;
    }

    static lemma RootCount(v: Volume, mm: Meta)
      requires WF(v, mm)
      ensures IsDir(EntryAt(v, Slot(ROOT_CLUSTER_NUMBER, 0)))
      ensures ClusterOf(EntryAt(v, Slot(ROOT_CLUSTER_NUMBER, 0))) == ROOT_CLUSTER_NUMBER
      ensures Table(v, ROOT_CLUSTER_NUMBER) == DecodeTable(v.disk[ROOT_CLUSTER_NUMBER])
    {
      assert Linked(v, mm, ROOT_CLUSTER_NUMBER);
    }

    /** Lines 481-493. */
    method RemoveSlot(ghost s: Slot, entry: DirEntry, parent_cluster: nat, index: nat)
      requires Shape() && s == Slot(parent_cluster, index) && s in m.chains && entry == EntryAt(V(), s)
      requires 2 <= s.dir < CLUSTER_MAP_SIZE && s.idx < MAX_DIR_TABLE_ENTRY
      requires m.chains[s] != [] && ClusterOf(entry) == m.chains[s][0]
      requires WF(RemoveEntry(V(), s, m.chains[s]), Removed(m, s)) && Removable(V(), m, s)
      requires Valid()
      modifies this`m, disk, cluster_map
      ensures DeletedSlot(old(V()), old(m), V(), m, s) && Valid()
    {
      hide Removable, EntryAt, IsLink, WF, ClusterOf, IsDir, EncodeTable, EncodeFat, DecodeTable;
      ghost var v, ch := V(), m.chains[s];
      FreeChain(ClusterOf(entry), s);
      TableEntry(v, s);
      assert disk[..] == v.disk;
      var dir := DecodeTable(disk[parent_cluster]);
      dir := dir[index := ZERO_ENTRY];
      disk[parent_cluster] := EncodeTable(dir);
      disk[FAT_CLUSTER_NUMBER] := EncodeFat(cluster_map[..]);
      assert V() == RemoveEntry(v, s, ch);
      m := Removed(m, s);
    }

    static lemma EntryCluster(v: Volume, mm: Meta, s: Slot)
      requires WF(v, mm) && s in mm.chains
      ensures mm.chains[s] != [] && ClusterOf(EntryAt(v, s)) == mm.chains[s][0] < CLUSTER_MAP_SIZE
      ensures IsDir(EntryAt(v, s)) ==>
        mm.chains[s][0] in mm.depth && Table(v, mm.chains[s][0]) == DecodeTable(v.disk[mm.chains[s][0]])
    {
      hide EntryAt, IsLink, Hung;
      assert Housed(v, mm, s);
      assert IsChain(v.fat, mm.chains[s]);
    }

    static lemma NotRemovable(v: Volume, mm: Meta, s: Slot)
      requires WF(v, mm) && s in mm.chains && IsDir(EntryAt(v, s))
      requires CountUsed(Table(v, ClusterOf(EntryAt(v, s))), RESERVED_ENTRY) != 0
      ensures !Removable(v, mm, s)
    {
      hide IsLink, DecodeTable, ClusterOf, Partitioned, Header;
      ChildDir(v, mm, s);
      var d := ClusterOf(EntryAt(v, s));
      TableAt(v, mm, d);
      var j :| RESERVED_ENTRY <= j < MAX_DIR_TABLE_ENTRY && Used(Table(v, d)[j]);
      assert EntryAt(v, Slot(d, j)) == Table(v, d)[j];
      assert Slot(d, j) in mm.chains;
    }

    static lemma EmptyRemovable(v: Volume, mm: Meta, s: Slot)
      requires WF(v, mm) && s in mm.chains
      requires IsDir(EntryAt(v, s)) ==> CountUsed(Table(v, ClusterOf(EntryAt(v, s))), RESERVED_ENTRY) == 0
      ensures Removable(v, mm, s)
    {
      hide IsLink, DecodeTable, ClusterOf, Partitioned, Header, EntryAt;
      forall t | t in mm.chains
        ensures t.dir !in mm.chains[s]
      {
        SlotDir(v, mm, t);
        if IsDir(EntryAt(v, s)) {
          ChildDir(v, mm, s);
          TableAt(v, mm, ClusterOf(EntryAt(v, s)));
        } else if t.dir in mm.chains[s] {
          var k :| 0 <= k < |mm.chains[s]| && mm.chains[s][k] == t.dir;
          FileCluster(v, mm, s, k);
        }
      }
    }

    // ---------- mounting ----------

    /** `is_empty_storage`. */
    method IsEmptyStorage() returns (empty: bool)
      requires Shape()
      ensures empty <==> disk[0][..BLOCK_SIZE] != FsSignature()
    {
      var sig, b := FsSignature(), disk[0];
      hide FsSignature;
      for i := 0 to BLOCK_SIZE
        invariant sig[..i] == b[..i]
      {
        if sig[i] != b[i] {
          assert b[..BLOCK_SIZE][i] != sig[i];
          return true;
        }
      }
      assert sig[..BLOCK_SIZE] == sig;
      return false;
    }

    /** `create_fat32`: writes the signature block, a fresh table and an empty root directory. */
    method CreateFat32()
      requires Shape()
      modifies disk
      ensures disk[0][..BLOCK_SIZE] == FsSignature() && disk[0][BLOCK_SIZE..] == old(disk[0][BLOCK_SIZE..])
      ensures disk[1] == EncodeFat(FreshFat())
      ensures disk[2] == EncodeTable(EmptyTable(ROOT_CLUSTER_NUMBER, ROOT_CLUSTER_NUMBER))
      ensures forall c :: 3 <= c < disk.Length ==> disk[c] == old(disk[c])
    {
      hide FsSignature, EncodeFat, EncodeTable, EmptyTable;
      ghost var rest := disk[0][BLOCK_SIZE..];
      disk[0] := FsSignature() + disk[0][BLOCK_SIZE..];
      ghost var disk1 := disk[..];
      assert disk[0][..BLOCK_SIZE] == FsSignature() && disk[0][BLOCK_SIZE..] == rest;
      var file_table := new uint32[CLUSTER_MAP_SIZE];
      for i := 0 to CLUSTER_MAP_SIZE
        invariant disk[..] == disk1 && forall j :: 0 <= j < i ==> file_table[j] == FAT32_FAT_EMPTY_ENTRY
      {
        file_table[i] := FAT32_FAT_EMPTY_ENTRY;
      }
      file_table[0] := CLUSTER_0_VALUE;
      file_table[1] := CLUSTER_0_VALUE;
      file_table[2] := FAT32_FAT_END_OF_FILE;
      assert file_table[..] == FreshFat();
      assert disk[0] == disk1[0] && forall c :: 3 <= c < disk.Length ==> disk[c] == disk1[c];
      disk[FAT_CLUSTER_NUMBER] := EncodeFat(file_table[..]);
      disk[ROOT_CLUSTER_NUMBER] := EncodeTable(EmptyTable(ROOT_CLUSTER_NUMBER, ROOT_CLUSTER_NUMBER));
    }

    /** `initialize_filesystem_fat32`: on the disk of a well-formed volume it recovers exactly that volume,
        whatever the cache held; any disk without the signature becomes an empty file system. */
    method Initialize()
      requires Shape()
      modifies this`m, disk, cluster_map
      ensures old(disk[0][..BLOCK_SIZE]) == FsSignature() ==>
        disk[..] == old(disk[..]) && forall v: Volume, mm :: v.disk == old(disk[..]) && WF(v, mm) ==>
          V() == v && (old(m) == mm ==> m == mm)
      ensures old(disk[0][..BLOCK_SIZE]) != FsSignature() ==>
        Valid() && Addressable(V(), m) && Abs(V(), m) == map[] && Zeroed(V(), m)
    {
      hide FsSignature, EncodeFat, EncodeTable, EmptyTable, FreshFat, Tree, Partitioned, DecodeFat, Abs, Addressable,
           Zeroed;
      var empty := IsEmptyStorage();
      if empty {
        CreateFat32();
        m := FRESH_META;
      }
      var fat := DecodeFat(disk[FAT_CLUSTER_NUMBER]);
      forall i | 0 <= i < CLUSTER_MAP_SIZE {
        cluster_map[i] := fat[i];
      }
      assert cluster_map[..] == fat;
      if empty {
        FatRoundTrip(FreshFat());
        FreshWF(V());
        FreshAbs(V());
        FreshZeroed(V());
      } else {
        forall v: Volume, mm | v.disk == old(disk[..]) && WF(v, mm)
          ensures V() == v
        {
          FatRoundTrip(v.fat);
        }
      }
    }

    // ---------- opening and reading ----------

    /** A handle between two reads: its cluster pointer is one ahead of the data in its buffer. */
    ghost predicate ForReading(h: VFSState)
      reads this, disk, cluster_map, h, h.buffer
    {
      && Positioned(h)
      && var ch, k := m.chains[h.Target()], Clusters(h.progress_pointer);
      && h.current_cluster == (if k < |ch| then ch[k] else FAT32_FAT_END_OF_FILE)
      && (h.progress_pointer % CLUSTER_SIZE != 0 ==>
            h.progress_pointer / CLUSTER_SIZE < |ch| && ch[h.progress_pointer / CLUSTER_SIZE] < disk.Length
            && h.buffer[..] == disk[ch[h.progress_pointer / CLUSTER_SIZE]])
    }

    /** The cluster holding the next byte is in the buffer. */
    ghost predicate Loaded(h: VFSState)
      reads this, disk, cluster_map, h, h.buffer
    {
      && Positioned(h)
      && var ch, k := m.chains[h.Target()], h.progress_pointer / CLUSTER_SIZE;
         k < |ch| && ch[k] < disk.Length && h.buffer[..] == disk[ch[k]]
         && h.current_cluster == if k + 1 < |ch| then ch[k + 1] else FAT32_FAT_END_OF_FILE
    }

    /** A handle that has read is no handle for writing: its cluster pointer is one ahead. Only at the very start
        do both uses agree. */
    lemma DirectionFixed(h: VFSState)
      requires ForReading(h) && Valid()
      ensures ForWriting(h) <==> h.progress_pointer == 0
    {
      hide EntryAt, IsDir;
      var s := h.Target();
      var ch, p := m.chains[s], h.progress_pointer;
      ChainBounds(V(), m, s, 0);
      if p > 0 {
        var k := (p - 1) / CLUSTER_SIZE;
        assert Clusters(p) == k + 1;
        if k + 1 < |ch| && ch[k] == ch[k + 1] {
          assert IsChain(V().fat, ch);
          ChainDistinct(V().fat, ch, k, k + 1);
        }
        if k < |ch| { ChainBounds(V(), m, s, k); }
      }
    }

    /** What `write_vfs` does on a handle that has read into the middle of a cluster, for data that ends in that
        cluster: lines 294-343, of which lines 300-325 are passed over. The flush of line 331 overwrites the next
        cluster of the file, or nothing on the disk behind the last one. */
    method WriteAfterRead(h: VFSState, buffer: array<char>, size: int) returns (r: int)
      requires ForReading(h) && buffer != h.buffer && 0 < size <= buffer.Length
      requires Inside(V(), m, h.Target(), h.progress_pointer, size)
      requires Valid()
      modifies disk, h`progress_pointer, h`progress_end, h.buffer
      ensures r == size && h.progress_pointer == old(h.progress_pointer) + size && m == old(m) && Valid()
      ensures V() == Misplaced(old(V()), m, h.Target(), old(h.progress_pointer), buffer[..size])
      ensures forall t | t in m.chains && t != h.Target() :: Kept(old(V()), m, V(), m, t)
    {
      hide EntryAt, WF, IsDir, Bytes, Clusters, EncodeTable, DecodeTable, ForReading, Kept;
      ghost var v, s, p := V(), h.Target(), h.progress_pointer;
      ghost var k := p / CLUSTER_SIZE;
      ReadAhead(h);
      MisplacedKeepsWF(v, m, s, p, buffer[..size]);
      PatchBuffer(h, buffer, size, k);
      if k + 1 < |m.chains[s]| { FileCluster(v, m, s, k + 1); }
      if h.current_cluster != FAT32_FAT_END_OF_FILE { // of which there is no block on the disk
        disk[h.current_cluster] := h.buffer[..];
      }
      if h.progress_pointer > h.progress_end {
        h.progress_end := h.progress_pointer;
      }
      SlotDir(v, m, s);
      var dir := DecodeTable(disk[h.directory_cluster]);
      TableEntry(V(), s);
      TableEntry(v, s);
      dir := dir[h.directory_index := dir[h.directory_index].(filesize := h.progress_end)];
      disk[h.directory_cluster] := EncodeTable(dir);
      assert V() == Misplaced(v, m, s, p, buffer[..size]);
      return size;
    }

    /** Lines 294-330 inside one cluster. */
    method PatchBuffer(h: VFSState, buffer: array<char>, size: nat, ghost k: nat)
      requires Shape() && h.buffer.Length == CLUSTER_SIZE && buffer != h.buffer && size <= buffer.Length
      requires h.progress_pointer % CLUSTER_SIZE + size <= CLUSTER_SIZE && Ahead(h, k)
      modifies h`progress_pointer, h.buffer
      ensures h.progress_pointer == old(h.progress_pointer) + size && Ahead(h, k)
      ensures h.buffer[..] == Overlay(old(h.buffer[..]), old(h.progress_pointer) % CLUSTER_SIZE, buffer[..size])
    {
      ghost var p, cached := h.progress_pointer, h.buffer[..];
      assert Overlay(cached, p % CLUSTER_SIZE, buffer[..0]) == cached;
      hide Overlay;
      var write_count := 0;
      while true
        invariant 0 <= write_count <= size && h.progress_pointer == p + write_count
        invariant h.buffer[..] == Overlay(cached, p % CLUSTER_SIZE, buffer[..write_count])
        decreases size - write_count
      {
        if write_count >= size { break; }
        InCluster(p, write_count);
        PatchByte(h, buffer[write_count], cached, p % CLUSTER_SIZE, buffer[..write_count]);
        assert buffer[..write_count + 1] == buffer[..write_count] + [buffer[write_count]];
        write_count := write_count + 1;
      }
    }

    method PatchByte(h: VFSState, c: char, ghost cached: seq<char>, ghost o: nat, ghost d: seq<char>)
      requires o + |d| < |cached| == h.buffer.Length == CLUSTER_SIZE && h.progress_pointer % CLUSTER_SIZE == o + |d|
      requires h.buffer[..] == Overlay(cached, o, d)
      modifies h`progress_pointer, h.buffer
      ensures h.progress_pointer == old(h.progress_pointer) + 1 && h.buffer[..] == Overlay(cached, o, d + [c])
    {
      OverlaySnoc(cached, o, d, c);
      hide Overlay;
      var local_offset := h.progress_pointer % CLUSTER_SIZE;
      h.buffer[local_offset] := c;
      h.progress_pointer := h.progress_pointer + 1;
    }

    /** The cluster pointer is on the cluster behind number `k` of the chain. */
    ghost predicate Ahead(h: VFSState, k: nat)
      reads this, h
    {
      h.Target() in m.chains && k < |m.chains[h.Target()]| && h.current_cluster ==
        if k + 1 < |m.chains[h.Target()]| then m.chains[h.Target()][k + 1] else FAT32_FAT_END_OF_FILE
    }

    lemma ReadAhead(h: VFSState)
      requires ForReading(h) && Inside(V(), m, h.Target(), h.progress_pointer, 1)
      ensures Ahead(h, h.progress_pointer / CLUSTER_SIZE) && h.progress_end == EntryAt(V(), h.Target()).filesize
      ensures h.buffer[..] == disk[m.chains[h.Target()][h.progress_pointer / CLUSTER_SIZE]]
    {
      hide EntryAt, IsDir, Bytes;
    }

    static lemma InCluster(p: nat, n: nat)
      requires p % CLUSTER_SIZE + n < CLUSTER_SIZE
      ensures (p + n) % CLUSTER_SIZE == p % CLUSTER_SIZE + n
    {
    }

    static lemma OverlaySnoc(b: seq<char>, o: nat, d: seq<char>, c: char)
      requires o + |d| < |b|
      ensures Overlay(b, o, d + [c]) == Overlay(b, o, d)[o + |d| := c]
    {
    }

    /** A handle on a file that an operation left alone works on as before. */
    twostate lemma HandleKept(h: VFSState)
      requires old(Valid()) && Valid() && unchanged(h) && h.buffer[..] == old(h.buffer[..])
      requires h.Target() in m.chains && Kept(old(V()), old(m), V(), m, h.Target())
      ensures old(ForReading(h)) ==> ForReading(h)
      ensures old(ForWriting(h)) ==> ForWriting(h)
    {
      hide EntryAt, IsDir, WF;
      var ch := m.chains[h.Target()];
      ghost var file := !IsDir(old(EntryAt(V(), h.Target())));
      assert forall k {:trigger ch[k]} :: 0 <= k < |ch| && ch[k] < disk.Length && file ==>
        V().disk[ch[k]] == old(V()).disk[ch[k]];
    }

    lemma ReadBound(h: VFSState)
      requires ForReading(h)
      ensures h.progress_pointer <= h.progress_end == |Bytes(V(), m, h.Target())|
    {
      hide EntryAt;
    }

    lemma InsideCluster(h: VFSState)
      requires ForReading(h) && h.progress_pointer % CLUSTER_SIZE != 0
      ensures Loaded(h)
    {
    }

    lemma LoadedByte(h: VFSState)
      requires Loaded(h) && h.progress_pointer < h.progress_end
      ensures h.buffer.Length == CLUSTER_SIZE && h.progress_end == |Bytes(V(), m, h.Target())|
      ensures h.buffer[h.progress_pointer % CLUSTER_SIZE] == Bytes(V(), m, h.Target())[h.progress_pointer]
    {
      hide EntryAt, WF, IsDir;
      assert h.buffer[..][h.progress_pointer % CLUSTER_SIZE] == h.buffer[h.progress_pointer % CLUSTER_SIZE];
    }

    /** Lines 276-280. The corrupted-file answer does not occur: the chain covers the size. */
    method LoadCluster(h: VFSState) returns (ok: bool)
      requires ForReading(h) && h.progress_pointer < h.progress_end && h.progress_pointer % CLUSTER_SIZE == 0
      requires Valid()
      modifies h`current_cluster, h.buffer
      ensures ok && Loaded(h)
    {
      hide EntryAt, WF, IsDir;
      ghost var s, k := h.Target(), h.progress_pointer / CLUSTER_SIZE;
      assert Clusters(h.progress_pointer) == k;
      ChainNext(V(), m, s, k);
      if h.current_cluster == FAT32_FAT_END_OF_FILE {
        return false;
      }
      ReadCluster(h);
      h.current_cluster := cluster_map[h.current_cluster];
      return true;
    }

    /** Moving past one byte of a loaded cluster. */
    method PassByte(h: VFSState)
      requires Loaded(h) && h.progress_pointer < h.progress_end
      modifies h`progress_pointer
      ensures h.progress_pointer == old(h.progress_pointer) + 1 && ForReading(h)
    {
      hide EntryAt, WF, IsDir;
      h.progress_pointer := h.progress_pointer + 1;
      assert Clusters(h.progress_pointer) == old(h.progress_pointer) / CLUSTER_SIZE + 1;
    }

    /** `open`: a handle at the start of the file, for reading or for writing, or nothing. */
    method Open(path: seq<char>) returns (h: VFSState?)
      requires NUL !in path && Shape()
      requires Valid()
      ensures Valid() && V() == old(V()) && m == old(m)
      ensures h != null <==>
        Lookup(V(), Tokens(path, '/')).Some? && !IsDir(EntryAt(V(), Lookup(V(), Tokens(path, '/')).value))
      ensures h != null ==>
        fresh(h) && fresh(h.buffer) && Some(h.Target()) == Lookup(V(), Tokens(path, '/')) && h.progress_pointer == 0
        && ForReading(h) && ForWriting(h)
    {
      hide EntryAt, FullName, IsLink, Tokens, Walk, WF, ClusterOf, IsDir, Table, CountUsed;
      var state := new VFSState();
      var status, entry, parent_cluster, index := GetEntryWithParentClusterAndIndex(path);
      RootCount(V(), m);
      if status != 0 {
        return null;
      }
      if IsDir(entry) {
        return null;
      }
      state.directory_cluster := parent_cluster;
      state.directory_index := index;
      state.current_cluster := ClusterOf(entry);
      state.progress_pointer := 0;
      state.progress_end := entry.filesize;
      ghost var s := state.Target();
      EntryCluster(V(), m, s);
      SizeCovered(V(), m, s);
      return state;
    }

    /** `read_vfs`. On a well-formed volume it never answers -1. */
    method ReadVfs(h: VFSState, buffer: array<char>, size: int) returns (r: int)
      requires ForReading(h) && buffer != h.buffer && size <= buffer.Length
      requires Valid()
      modifies h`progress_pointer, h`current_cluster, h.buffer, buffer
      ensures Valid() && V() == old(V()) && ForReading(h)
      ensures 0 <= r <= buffer.Length
        && ReadStep(Bytes(V(), m, h.Target()), old(h.progress_pointer), size, buffer[..r], h.progress_pointer)
      ensures var left := |Bytes(V(), m, h.Target())| - old(h.progress_pointer);
        r == if size <= 0 then 0 else if size < left then size else left
      ensures h.progress_pointer == old(h.progress_pointer) + r
      ensures forall i :: 0 <= i < r ==> buffer[i] == Bytes(V(), m, h.Target())[old(h.progress_pointer) + i]
      ensures forall i :: r <= i < buffer.Length ==> buffer[i] == old(buffer[i])
    {
      hide EntryAt, WF, IsDir, Content, Clusters, ForReading, Loaded, Bytes;
      ghost var s, p0, v := h.Target(), h.progress_pointer, V();
      ghost var bytes := Bytes(v, m, s);
      ReadBound(h);
      var read_count := 0;
      while true
        invariant 0 <= read_count && (read_count <= size || read_count == 0)
        invariant h.Target() == s && V() == v && Valid() && ForReading(h)
        invariant h.progress_pointer == p0 + read_count <= h.progress_end == |bytes|
        invariant forall i :: 0 <= i < read_count ==> buffer[i] == bytes[p0 + i]
        invariant forall i :: read_count <= i < buffer.Length ==> buffer[i] == old(buffer[i])
        decreases size - read_count
      {
        if read_count >= size { break; }
        if h.progress_pointer >= h.progress_end { break; }
        var local_offset := h.progress_pointer % CLUSTER_SIZE;
        if local_offset == 0 {
          var loaded := LoadCluster(h);
          if !loaded { return -1; }
        } else {
          InsideCluster(h);
        }
        LoadedByte(h);
        buffer[read_count] := h.buffer[local_offset];
        PassByte(h);
        read_count := read_count + 1;
      }
      assert buffer[..read_count] == bytes[p0..p0 + read_count];
      return read_count;
    }

    // ---------- stat ----------

    /** `fat32_to_vfs`. */
    method ToVfs(entry: DirEntry) returns (e: VfsEntry)
      requires IsDir(entry) ==> ClusterOf(entry) < disk.Length
      ensures e == VfsEntry(FullName(entry),
        if IsDir(entry) then CountUsed(DecodeTable(disk[ClusterOf(entry)]), RESERVED_ENTRY)
          else entry.filesize, IsDir(entry))
    {
      var size := GetEntryCount(entry);
      e := VfsEntry(FullName(entry), if IsDir(entry) then size else entry.filesize, IsDir(entry));
    }

    /** `stat`. */
    method Stat(path: seq<char>) returns (status: int, e: VfsEntry)
      requires NUL !in path && Shape()
      requires Valid()
      ensures status == 0 || status == -1
      ensures Tokens(path, '/') != [] ==> (status == 0 <==> Lookup(V(), Tokens(path, '/')).Some?)
      ensures Tokens(path, '/') != [] && status == 0 ==>
        e == Described(V(), EntryAt(V(), Lookup(V(), Tokens(path, '/')).value))
      ensures Tokens(path, '/') == [] ==>
        status == 0 && e == Described(V(), EntryAt(V(), Slot(ROOT_CLUSTER_NUMBER, 0))) && e.isDir
    {
      hide EntryAt, FullName, IsLink, Tokens, Walk, WF, ClusterOf, IsDir, Table, CountUsed;
      RootCount(V(), m);
      e := VfsEntry([], 0, false);
      var entry, parent_cluster, index;
      status, entry, parent_cluster, index := GetEntryWithParentClusterAndIndex(path);
      TargetDirPath(V(), m, []);
      TableAt(V(), m, ROOT_CLUSTER_NUMBER);
      if status != 0 {
        return;
      }
      if Tokens(path, '/') != [] {
        EntryCluster(V(), m, Slot(parent_cluster, index));
      }
      e := ToVfs(entry);
    }

    /** `dirstat`, on a directory or a path that does not exist: it does not look at the kind of the entry. */
    method DirStat(path: seq<char>) returns (status: int, entries: seq<VfsEntry>)
      requires NUL !in path && Shape() && NotAFile(V(), Tokens(path, '/'))
      requires Valid()
      ensures status == 0 || status == -1
      ensures status == 0 <==> TargetDir(V(), Tokens(path, '/')).Some?
      ensures status == 0 ==>
        entries == ListEntries(V(), Table(V(), TargetDir(V(), Tokens(path, '/')).value), RESERVED_ENTRY)
        && EntryNames(entries) == ListNames(Table(V(), TargetDir(V(), Tokens(path, '/')).value), RESERVED_ENTRY)
    {
      hide EntryAt, FullName, IsLink, Tokens, Walk, WF, ClusterOf, IsDir, Table, CountUsed, ListNames, ListEntries,
           Described, EntryNames;
      entries := [];
      var entry;
      TargetDirPath(V(), m, Tokens(path, '/'));
      TableAt(V(), m, ROOT_CLUSTER_NUMBER);
      var parent_cluster, index;
      status, entry, parent_cluster, index := GetEntryWithParentClusterAndIndex(path);
      if status != 0 {
        return;
      }
      assert TargetDir(V(), Tokens(path, '/')) == Some(ClusterOf(entry));
      TableAt(V(), m, ClusterOf(entry));
      var dir := DecodeTable(disk[ClusterOf(entry)]);
      entries := ListDirectory(dir, ClusterOf(entry));
    }

    /** The loop of lines 199-205. */
    method ListDirectory(dir: DirTable, ghost d: nat) returns (entries: seq<VfsEntry>)
      requires Shape() && d in m.depth && dir == Table(V(), d)
      requires Valid()
      ensures entries == ListEntries(V(), dir, RESERVED_ENTRY)
      ensures EntryNames(entries) == ListNames(dir, RESERVED_ENTRY)
    {
      hide EntryAt, FullName, IsLink, WF, ClusterOf, IsDir, Table, Used, EntryNames, ListNames, DecodeTable, CountUsed,
           ListEntries, Described;
      entries := [];
      TableAt(V(), m, d);
      ListedNames(V(), dir, RESERVED_ENTRY);
      for i := RESERVED_ENTRY to MAX_DIR_TABLE_ENTRY
        invariant entries + ListEntries(V(), dir, i) == ListEntries(V(), dir, RESERVED_ENTRY)
      {
        ListStep(V(), dir, i, entries);
        if Used(dir[i]) {
          UsedCluster(V(), m, Slot(d, i));
          var e := ToVfs(dir[i]);
          DescribedIs(V(), m, Slot(d, i), dir[i], e);
          entries := entries + [e];
        }
      }
      ListEnd(V(), dir);
    }

    static lemma DescribedIs(v: Volume, mm: Meta, s: Slot, entry: DirEntry, e: VfsEntry)
      requires WF(v, mm) && s.dir in mm.depth && RESERVED_ENTRY <= s.idx < MAX_DIR_TABLE_ENTRY && Used(EntryAt(v, s))
      requires entry == EntryAt(v, s)
      requires IsDir(entry) ==> ClusterOf(entry) < |v.disk|
      requires e == VfsEntry(FullName(entry),
        if IsDir(entry) then CountUsed(DecodeTable(v.disk[ClusterOf(entry)]), RESERVED_ENTRY)
          else entry.filesize, IsDir(entry))
      ensures e == Described(v, entry)
    {
      hide EntryAt, Used, IsLink, FullName, CountUsed, DecodeTable;
      EntryCluster(v, mm, s);
    }

    static lemma ListEnd(v: Volume, dir: DirTable)
      ensures ListEntries(v, dir, MAX_DIR_TABLE_ENTRY) == []
    {
    }

    static lemma ListStep(v: Volume, dir: DirTable, i: nat, a: seq<VfsEntry>)
      requires i < MAX_DIR_TABLE_ENTRY
      ensures a + ListEntries(v, dir, i) ==
        (if Used(dir[i]) then a + [Described(v, dir[i])] else a) + ListEntries(v, dir, i + 1)
    {
      hide Described, Used;
      PushBehind(a, if Used(dir[i]) then [Described(v, dir[i])] else [], ListEntries(v, dir, i + 1));
    }

    static lemma PushBehind(a: seq<VfsEntry>, b: seq<VfsEntry>, c: seq<VfsEntry>)
      ensures a + (b + c) == (if b == [] then a else a + b) + c
    {
    }

    static lemma {:induction false} ListedNames(v: Volume, dir: DirTable, i: nat)
      requires i <= MAX_DIR_TABLE_ENTRY
      ensures EntryNames(ListEntries(v, dir, i)) == ListNames(dir, i)
      decreases MAX_DIR_TABLE_ENTRY - i
    {
      hide Described, FullName, EntryNames, Used;
      NamesNone();
      if i < MAX_DIR_TABLE_ENTRY {
        ListedNames(v, dir, i + 1);
        if Used(dir[i]) {
          NamesCons(v, dir[i], ListEntries(v, dir, i + 1));
        } else {
          assert ListEntries(v, dir, i) == ListEntries(v, dir, i + 1);
        }
      }
    }

    static lemma NamesNone()
      ensures EntryNames([]) == []
    {
    }

    static lemma NamesCons(v: Volume, e: DirEntry, es: seq<VfsEntry>)
      ensures EntryNames([Described(v, e)] + es) == [FullName(e)] + EntryNames(es)
    {
      hide FullName, CountUsed, Table, ClusterOf, IsDir;
    }

    static lemma UsedCluster(v: Volume, mm: Meta, s: Slot)
      requires WF(v, mm) && s.dir in mm.depth && RESERVED_ENTRY <= s.idx < MAX_DIR_TABLE_ENTRY && Used(EntryAt(v, s))
      ensures ClusterOf(EntryAt(v, s)) < CLUSTER_MAP_SIZE
    {
      hide EntryAt, Used, IsLink;
      EntryCluster(v, mm, s);
    }
  }

  /** `struct VFSEntry`. */
  datatype VfsEntry = VfsEntry(name: seq<char>, size: nat, isDir: bool)

  /** What stat says of an entry: its full name, kind, and size or number of entries. */
  function Described(v: Volume, e: DirEntry): VfsEntry {
    VfsEntry(FullName(e), if IsDir(e) then CountUsed(Table(v, ClusterOf(e)), RESERVED_ENTRY) else e.filesize, IsDir(e))
  }

  /** The used entries of a table in order. */
  function ListEntries(v: Volume, t: DirTable, i: nat): seq<VfsEntry>
    requires i <= MAX_DIR_TABLE_ENTRY
    decreases MAX_DIR_TABLE_ENTRY - i
  {
    if i == MAX_DIR_TABLE_ENTRY then []
    else (if Used(t[i]) then [Described(v, t[i])] else []) + ListEntries(v, t, i + 1)
  }

  function EntryNames(entries: seq<VfsEntry>): seq<seq<char>> {
    seq(|entries|, i requires 0 <= i < |entries| => entries[i].name)
  }
}
