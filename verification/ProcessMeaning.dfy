/** What the records of the processes mean: which memory a process has, what creating and destroying one changes, and
    when a process can be created. */
module ProcessMeaning {
  import opened Paging
  import opened RoundRobin
  import opened Scheduler
  import opened Processes

  /** The frames in use, counted. */
  lemma {:induction false} InUseMeans(us: seq<Use>)
    ensures InUse(us) == |set i | 0 <= i < |us| && us[i] != Unused|
    decreases |us|
  {
    var all := set i | 0 <= i < |us| && us[i] != Unused;
    if us == [] {
      assert all == {};
    } else {
      var n := |us| - 1;
      var rest := set i | 0 <= i < n && us[..n][i] != Unused;
      InUseMeans(us[..n]);
      InUseSnoc(us[..n], us[n]);
      assert us == us[..n] + [us[n]];
      assert all == if us[n] == Unused then rest else rest + {n};
    }
  }

  lemma {:induction false} InUseSnoc(us: seq<Use>, u: Use)
    ensures InUse(us + [u]) == InUse(us) + if u == Unused then 0 else 1
    decreases |us|
  {
    if us == [] {
      assert us + [u] == [u] && [u][1..] == [];
    } else {
      InUseSnoc(us[1..], u);
      assert (us + [u])[1..] == us[1..] + [u];
    }
  }

  /** Two processes have different ids, table slots and directories. */
  lemma ProcessesDiffer(k: Records, i: nat, j: nat)
    requires Corresponds(k) && i < j < |k.procs|
    ensures |k.order| == |k.procs| && k.order[i] != k.order[j]
    ensures k.procs[i].pid != k.procs[j].pid && k.procs[i].directory != k.procs[j].directory
  {
    assert Apart(k, i, j) && Placed(k, i) && Placed(k, j);
  }

  /** A process is in the table under its id, and has one frame. */
  lemma ProcessHas(k: Records, i: nat) returns (f: nat)
    requires Corresponds(k) && i < |k.procs| && FramesDistinct(k.frames)
    ensures 1 <= k.procs[i].pid <= |k.slots| && |k.order| == |k.procs| && k.slots[k.procs[i].pid - 1] == k.order[i]
    ensures k.procs[i].directory != null && k.procs[i].directory in k.dirs
    ensures f < |k.frames| && k.frames[f] == Owned(k.procs[i].directory, 0)
    ensures forall g :: 0 <= g < |k.frames| && k.frames[g].Owned? && k.frames[g].dir == k.procs[i].directory ==> g == f
  {
    assert Placed(k, i) && Owns(k, i);
    f :| 0 <= f < |k.frames| && k.frames[f] == Owned(k.procs[i].directory, 0);
    forall g | 0 <= g < |k.frames| && k.frames[g].Owned? && k.frames[g].dir == k.procs[i].directory
      ensures g == f
    {
      assert Charged(k, g);
      assert k.frames[g] == k.frames[f];
    }
  }

  /** Nothing is in the table, among the directories or the frames that no process has. */
  lemma NothingLeft(k: Records, slot: nat, f: nat)
    requires Corresponds(k)
    ensures slot < |k.slots| && k.slots[slot] != null ==>
      exists i :: 0 <= i < |k.procs| == |k.order| && k.order[i] == k.slots[slot] && k.procs[i].pid == slot + 1
    ensures f < |k.frames| && k.frames[f].Owned? ==>
      exists i :: 0 <= i < |k.procs| && k.procs[i].directory == k.frames[f].dir
    ensures k.count == |k.procs| && |set g | 0 <= g < |k.frames| && k.frames[g] != Unused| == 2 + |k.procs|
  {
    InUseMeans(k.frames);
    if slot < |k.slots| && k.slots[slot] != null {
      assert Queued(k, slot);
      var i: nat :| Holds(k, i, slot);
      assert k.order[i] == k.slots[slot];
    }
    if f < |k.frames| && k.frames[f].Owned? {
      assert Charged(k, f) && InOrder(k, k.frames[f].dir);
      var i: nat :| OwnedBy(k, i, k.frames[f].dir);
      assert k.procs[i].directory == k.frames[f].dir;
    }
  }

  /** The memory of a process is its own: its first page is mapped for user mode, to a frame that is not the kernel's
      and that no user entry of another process leads to. */
  lemma OwnMemory(k: Records, ts: Tables, i: nat, j: nat, page: nat) returns (f: nat)
    requires Corresponds(k) && Exclusive(k.frames, ts) && i < |k.procs| && j < |k.procs| && i != j && page < 1024
    requires |k.frames| >= 2 && k.frames[0] == k.frames[1] == Kernel
    ensures k.procs[i].directory != null && k.procs[i].directory in ts && |ts[k.procs[i].directory]| == 1024
    ensures 2 <= f < |k.frames| && ts[k.procs[i].directory][0] == Entry(true, true, true, true, f)
    ensures k.procs[j].directory != null && k.procs[j].directory in ts ==>
      var other := ts[k.procs[j].directory];
      |other| == 1024 && (other[page].present && other[page].user ==> other[page].lower_address != f)
  {
    ExclusiveDistinct(k.frames, ts);
    f := ProcessHas(k, i);
    assert Backed(k.frames, ts, f);
    assert UserAddress(0) && PageIndex(0) == 0;
    if i < j { ProcessesDiffer(k, i, j); } else { ProcessesDiffer(k, j, i); }
    var d := k.procs[j].directory;
    if d != null && d in ts { assert Recorded(k.frames, ts, d, page); }
  }

  /** A creation: the lowest id that is free, the first unused frame mapped at address 0, and a process at the back of
      the queue that will start there in user mode, with interrupts on and its stack at the end of that page. */
  lemma CreatedMeans(k: Records, k': Records, pid: int, name: string, pcb: ProcessControlBlock)
    returns (f: nat, p: Proc)
    requires WasCreated(k, k', pid, name, pcb) && pcb.page_directory != null
    ensures 1 <= pid <= |k.slots| && k.slots[pid - 1] == null && forall j :: 0 <= j < pid - 1 ==> k.slots[j] != null
    ensures f < |k.frames| && k.frames[f] == Unused && forall g :: 0 <= g < f ==> k.frames[g] != Unused
    ensures k'.slots == k.slots[pid - 1 := pcb] && k'.order == k.order + [pcb] && k'.procs == k.procs + [p]
    ensures k'.frames == k.frames[f := Owned(pcb.page_directory, 0)]
    ensures k'.dirs == k.dirs + {pcb.page_directory} && k'.count == k.count + 1
    ensures p.pid == pid && p.state == Ready && p.wait == NoWait && !p.recall && p.directory == pcb.page_directory
    ensures var r := p.frame;
      && r.eip == 0 && r.old_esp + 4 == 0x40_0000
      && r.cs == 0x18 + 3 && r.ss == r.ds == r.es == r.fs == r.gs == 0x20 + 3
      && (r.eflags / 0x200) % 2 == 1 && r.eflags % 0x200 == 2 && r.eflags < 0x400
      && r.eax == r.ebx == r.ecx == r.edx == r.esi == r.edi == r.ebp == r.esp == 0
      && r.int_number == r.error_code == 0
  {
    f := FirstUnused(k.frames, 0);
    p := k'.procs[|k.procs|];
  }

  /** A destruction: the process of the id, which is not the current one, leaves its place in the queue and in the
      table, and its directory and every frame of it are given back. */
  lemma DestroyedMeans(k: Records, k': Records, pid: int) returns (i: nat)
    requires WasDestroyed(k, k', pid)
    ensures 0 < i < |k.procs| == |k.order| && k.procs[i].pid == pid && 1 <= pid <= |k.slots|
    ensures k.slots[pid - 1] == k.order[i] && k'.slots == k.slots[pid - 1 := null]
    ensures k'.order == k.order[..i] + k.order[i + 1..] && k'.procs == k.procs[..i] + k.procs[i + 1..]
    ensures |k'.frames| == |k.frames| && forall f :: 0 <= f < |k.frames| ==>
      k'.frames[f] ==
      if k.frames[f].Owned? && k.frames[f].dir == k.procs[i].directory then Unused else k.frames[f]
    ensures k.procs[i].directory != null && k'.dirs == k.dirs - {k.procs[i].directory} && k'.count == k.count - 1
  {
    i := IndexOf(k.procs, pid, 0);
  }

  /** A process can be created exactly when there are fewer than 30, the kernel heap has room for it, and its program is
      a file of at most seven pages, and of at most 31 less one for each process. */
  lemma AdmittedMeans(k: Records, room: bool, dir_room: bool, entry: Stat)
    requires Corresponds(k) && |k.frames| == 32
    ensures Admitted(k, room, dir_room, entry) <==>
      && room && dir_room && |k.procs| < 30 && entry.Found? && entry.is_file
      && entry.size <= 7 * 0x40_0000 && entry.size <= (31 - |k.procs|) * 0x40_0000
  {
    InUseBound(k.frames);
    if entry.Found? { Pages(entry.size, 7); if |k.procs| <= 31 { Pages(entry.size, 31 - |k.procs|); } }
  }

  lemma Pages(size: nat, n: nat)
    ensures FramesNeeded(size) <= n + 1 <==> size <= n * 0x40_0000
  {
  }
}
