/** Processes (src/kernel/c/process/process.c): the process table, and what creating and destroying a process
    does to it, to the ready queue and to the page frames. */
module Processes {
  import opened Paging
  import opened RoundRobin
  import opened Scheduler

  const PROCESS_COUNT_MAX := 32
  const PROCESS_START_PID := 1
  const PROCESS_PAGE_FRAME_COUNT_MAX := 8
  const WORD := 0x1_0000_0000

  /** What vfs.stat says about the program file. */
  datatype Stat = Missing | Found(is_file: bool, size: nat)

  /** Zeroed memory with the registers a user program starts with. */
  const START_FRAME := Frame(
    0, 0, 0, 0, 0, 0, 0, 0, 0x23, 0x23, 0x23, 0x23, 0,
    0, 0, 0x1B, 0x202, 0x3F_FFFC, 0x23)

  // ---------- the four records of a live process ----------

  type Slot = ProcessControlBlock?

  /** Process table, order of the scheduler, page frames, live page directories and the count of processes. */
  datatype Records = Records(
    slots: seq<Slot>, order: seq<ProcessControlBlock>, procs: seq<Proc>,
    frames: seq<Use>, dirs: set<PageDirectory>, count: nat)

  function FreeSlot(slots: seq<Slot>, i: nat): (r: nat)
    requires i <= |slots|
    ensures i <= r <= |slots| && (r < |slots| ==> slots[r] == null) && forall j :: i <= j < r ==> slots[j] != null
    decreases |slots| - i
  {
    if i == |slots| || slots[i] == null then i else FreeSlot(slots, i + 1)
  }

  ghost function Taken(slots: seq<Slot>): nat {
    if slots == [] then 0 else (if slots[0] == null then 0 else 1) + Taken(slots[1..])
  }

  lemma {:induction false} TakenUpdate(slots: seq<Slot>, i: nat, p: Slot)
    requires i < |slots|
    ensures Taken(slots[i := p]) == Taken(slots) - (if slots[i] == null then 0 else 1) + (if p == null then 0 else 1)
    decreases |slots|
  {
    if i > 0 {
      TakenUpdate(slots[1..], i - 1, p);
      assert slots[i := p][1..] == slots[1..][i - 1 := p];
    } else {
      assert slots[i := p][1..] == slots[1..];
    }
  }

  lemma {:induction false} TakenBound(slots: seq<Slot>)
    ensures Taken(slots) <= |slots| && (Taken(slots) < |slots| <==> FreeSlot(slots, 0) < |slots|)
    decreases |slots|
  {
    if slots != [] {
      TakenBound(slots[1..]);
      var r := FreeSlot(slots[1..], 0);
      if r < |slots[1..]| { assert slots[r + 1] == null; }
      if slots[0] != null && FreeSlot(slots, 0) < |slots| { assert slots[1..][FreeSlot(slots, 0) - 1] == null; }
    }
  }

  /** The i-th process of the scheduler has slot j. */
  predicate Holds(k: Records, i: nat, j: nat) {
    i < |k.order| == |k.procs| && j < |k.slots| && k.slots[j] == k.order[i] && k.procs[i].pid == j + PROCESS_START_PID
  }

  predicate Placed(k: Records, i: nat)
    requires i < |k.procs|
  {
    k.procs[i].pid >= PROCESS_START_PID && Holds(k, i, k.procs[i].pid - PROCESS_START_PID)
  }

  ghost predicate Queued(k: Records, j: nat)
    requires j < |k.slots|
  {
    k.slots[j] != null ==> exists i :: Holds(k, i, j)
  }

  /** The i-th process of the scheduler owns one page frame of its own directory. */
  predicate Owns(k: Records, i: nat)
    requires i < |k.procs|
  {
    var d := k.procs[i].directory;
    d != null && d in k.dirs && Owned(d, 0) in k.frames
  }

  predicate OwnedBy(k: Records, i: nat, d: PageDirectory) { i < |k.procs| && k.procs[i].directory == d }

  ghost predicate InOrder(k: Records, d: PageDirectory) { exists i :: OwnedBy(k, i, d) }

  predicate Apart(k: Records, i: nat, j: nat)
    requires i < |k.procs| && j < |k.procs|
  {
    k.procs[i].directory != k.procs[j].directory
  }

  predicate Charged(k: Records, f: nat)
    requires f < |k.frames|
  {
    k.frames[f].Owned? ==> k.frames[f].dir in k.dirs && k.frames[f].address == 0
  }

  /** The live processes are in one-to-one correspondence in all the records. */
  ghost predicate Corresponds(k: Records) {
    && |k.order| == |k.procs| && Distinct(k.order)
    && (forall i {:trigger Owns(k, i)} :: 0 <= i < |k.procs| ==> Owns(k, i))
    && (forall i, j {:trigger Apart(k, i, j)} :: 0 <= i < j < |k.procs| ==> Apart(k, i, j))
    && (forall d {:trigger InOrder(k, d)} :: d in k.dirs ==> InOrder(k, d))
    && (forall f {:trigger Charged(k, f)} :: 0 <= f < |k.frames| ==> Charged(k, f))
    && (forall i {:trigger Placed(k, i)} :: 0 <= i < |k.procs| ==> Placed(k, i))
    && (forall j {:trigger Queued(k, j)} :: 0 <= j < |k.slots| ==> Queued(k, j))
    && k.count == |k.order| == Taken(k.slots)
    && InUse(k.frames) == 2 + k.count
  }

  /** The records with one more process: in the lowest free slot, at the back of the queue, with the first
      unused frame mapped at address 0 of its directory. */
  function Created(k: Records, pcb: ProcessControlBlock, p: Proc, dir: PageDirectory): Records
    requires HasRoom(k)
  {
    Records(k.slots[FreeSlot(k.slots, 0) := pcb], k.order + [pcb], k.procs + [p],
      k.frames[FirstUnused(k.frames, 0) := Owned(dir, 0)], k.dirs + {dir}, k.count + 1)
  }

  predicate HasRoom(k: Records) {
    FreeSlot(k.slots, 0) < |k.slots| && FirstUnused(k.frames, 0) < |k.frames|
  }

  /** The records with the directory of a process still to come. */
  function Entered(k: Records, dir: PageDirectory): Records {
    k.(dirs := k.dirs + {dir})
  }

  /** And once the first unused frame is mapped for it. */
  function Mapped(k: Records, dir: PageDirectory): Records
    requires HasRoom(k)
  {
    k.(frames := k.frames[FirstUnused(k.frames, 0) := Owned(dir, 0)], dirs := k.dirs + {dir})
  }

  /** The records without the i-th process of the scheduler, which holds slot j. */
  function Destroyed(k: Records, i: nat, j: nat, dir: PageDirectory): Records
    requires i < |k.order| == |k.procs| && j < |k.slots| && k.count > 0
  {
    Records(k.slots[j := null], k.order[..i] + k.order[i + 1..], k.procs[..i] + k.procs[i + 1..],
      Disowned(k.frames, dir), k.dirs - {dir}, k.count - 1)
  }

  lemma CreatedCorresponds(k: Records, pcb: ProcessControlBlock, p: Proc, dir: PageDirectory)
    requires Corresponds(k) && HasRoom(k)
    requires p.pid == FreeSlot(k.slots, 0) + PROCESS_START_PID && p.directory == dir && dir !in k.dirs
    requires pcb !in k.order
    ensures Corresponds(Created(k, pcb, p, dir))
  {
    var k' := Created(k, pcb, p, dir);
    var s, f, n := FreeSlot(k.slots, 0), FirstUnused(k.frames, 0), |k.order|;
    TakenUpdate(k.slots, s, pcb);
    InUseUpdate(k.frames, f, Owned(dir, 0));
    AppendedDistinct(k.order, pcb);
    forall i | 0 <= i < |k'.procs|
      ensures Owns(k', i)
    {
      if i < n {
        assert Owns(k, i);
        var g :| 0 <= g < |k.frames| && k.frames[g] == Owned(k.procs[i].directory, 0);
        assert k'.frames[g] == k.frames[g];
      } else {
        assert k'.frames[f] == Owned(dir, 0);
      }
    }
    forall i, j | 0 <= i < j < |k'.procs|
      ensures Apart(k', i, j)
    {
      assert Owns(k, i);
      assert j < n ==> Apart(k, i, j);
    }
    forall d | d in k'.dirs
      ensures InOrder(k', d)
    {
      if d == dir {
        assert OwnedBy(k', n, d);
      } else {
        assert InOrder(k, d);
        var i :| OwnedBy(k, i, d);
        assert OwnedBy(k', i, d);
      }
    }
    forall g | 0 <= g < |k'.frames|
      ensures Charged(k', g)
    {
      assert Charged(k, g);
    }
    forall i | 0 <= i < |k'.procs|
      ensures Placed(k', i)
    {
      assert i < n ==> Placed(k, i);
    }
    forall j | 0 <= j < |k'.slots|
      ensures Queued(k', j)
    {
      assert Queued(k, j);
      if j == s {
        assert Holds(k', n, j);
      } else if k.slots[j] != null {
        var i :| Holds(k, i, j);
        assert Holds(k', i, j);
      }
    }
  }

  lemma DestroyedCorresponds(k: Records, i: nat, j: nat, dir: PageDirectory)
    requires Corresponds(k) && Holds(k, i, j) && OwnedBy(k, i, dir) && FramesDistinct(k.frames)
    ensures Corresponds(Destroyed(k, i, j, dir))
  {
    TakenUpdate(k.slots, j, null);
    DisownedOne(k, i, dir);
    RemovedDistinct(k.order, i);
    InUseUpdate(k.frames, Find(k.frames, Owned(dir, 0), 0), Unused);
    DestroyedSlots(k, i, j, dir);
    DestroyedFrames(k, i, j, dir);
  }

  lemma DestroyedSlots(k: Records, i: nat, j: nat, dir: PageDirectory)
    requires Corresponds(k) && Holds(k, i, j)
    ensures var k' := Destroyed(k, i, j, dir);
      (forall l {:trigger Placed(k', l)} :: 0 <= l < |k'.procs| ==> Placed(k', l))
      && forall m {:trigger Queued(k', m)} :: 0 <= m < |k'.slots| ==> Queued(k', m)
  {
    var k' := Destroyed(k, i, j, dir);
    forall l | 0 <= l < |k'.procs|
      ensures Placed(k', l)
    {
      var m := if l < i then l else l + 1;
      assert k'.procs[l] == k.procs[m] && k'.order[l] == k.order[m];
      assert Placed(k, m);
    }
    forall m | 0 <= m < |k'.slots|
      ensures Queued(k', m)
    {
      assert Queued(k, m);
      if m != j && k.slots[m] != null {
        var l: nat :| Holds(k, l, m);
        assert l != i;
        assert Holds(k', if l < i then l else l - 1, m);
      }
    }
  }

  lemma DestroyedFrames(k: Records, i: nat, j: nat, dir: PageDirectory)
    requires Corresponds(k) && Holds(k, i, j) && OwnedBy(k, i, dir)
    ensures var k' := Destroyed(k, i, j, dir);
      (forall l {:trigger Owns(k', l)} :: 0 <= l < |k'.procs| ==> Owns(k', l))
      && (forall l, m {:trigger Apart(k', l, m)} :: 0 <= l < m < |k'.procs| ==> Apart(k', l, m))
      && (forall d {:trigger InOrder(k', d)} :: d in k'.dirs ==> InOrder(k', d))
      && forall g {:trigger Charged(k', g)} :: 0 <= g < |k'.frames| ==> Charged(k', g)
  {
    var k' := Destroyed(k, i, j, dir);
    forall l | 0 <= l < |k'.procs|
      ensures Owns(k', l)
    {
      var m := if l < i then l else l + 1;
      assert k'.procs[l] == k.procs[m] && Owns(k, m);
      assert Apart(k, if m < i then m else i, if m < i then i else m);
      var g :| 0 <= g < |k.frames| && k.frames[g] == Owned(k.procs[m].directory, 0);
      assert k'.frames[g] == k.frames[g];
    }
    forall l, m | 0 <= l < m < |k'.procs|
      ensures Apart(k', l, m)
    {
      assert Apart(k, if l < i then l else l + 1, if m < i then m else m + 1);
    }
    forall d | d in k'.dirs
      ensures InOrder(k', d)
    {
      assert InOrder(k, d);
      var l: nat :| OwnedBy(k, l, d);
      assert l != i;
      assert OwnedBy(k', if l < i then l else l - 1, d);
    }
    forall g | 0 <= g < |k'.frames|
      ensures Charged(k', g)
    {
      assert Charged(k, g);
    }
  }

  /** No frame is recorded twice for the same directory and address. */
  predicate FramesDistinct(us: seq<Use>) {
    forall f, g {:trigger us[f], us[g]} :: 0 <= f < g < |us| && us[f].Owned? ==> us[f] != us[g]
  }

  lemma ExclusiveDistinct(us: seq<Use>, ts: Tables)
    requires Exclusive(us, ts)
    ensures FramesDistinct(us)
  {
    forall f, g | 0 <= f < g < |us| && us[f].Owned?
      ensures us[f] != us[g]
    {
      assert Backed(us, ts, f) && Backed(us, ts, g);
    }
  }

  lemma RemovedDistinct<T>(s: seq<T>, i: nat)
    requires Distinct(s) && i < |s|
    ensures Distinct(s[..i] + s[i + 1..])
  {
  }

  /** A process owns exactly one frame. */
  lemma DisownedOne(k: Records, i: nat, dir: PageDirectory)
    requires Corresponds(k) && OwnedBy(k, i, dir) && FramesDistinct(k.frames)
    ensures var f := Find(k.frames, Owned(dir, 0), 0);
      f < |k.frames| && Disowned(k.frames, dir) == k.frames[f := Unused]
  {
    assert Owns(k, i);
    var f := Find(k.frames, Owned(dir, 0), 0);
    forall g | 0 <= g < |k.frames|
      ensures Disowned(k.frames, dir)[g] == k.frames[f := Unused][g]
    {
      assert Charged(k, g);
      assert g < f ==> k.frames[g] != k.frames[f];
      assert f < g ==> k.frames[f] != k.frames[g];
    }
  }

  /** Destroying the process just created restores all the records. */
  lemma DestroyUndoesCreate(k: Records, pcb: ProcessControlBlock, p: Proc, dir: PageDirectory)
    requires Corresponds(k) && HasRoom(k) && dir !in k.dirs
    ensures Destroyed(Created(k, pcb, p, dir), |k.order|, FreeSlot(k.slots, 0), dir) == k
  {
    var k' := Created(k, pcb, p, dir);
    forall g | 0 <= g < |k.frames|
      ensures Disowned(k'.frames, dir)[g] == k.frames[g]
    {
      assert Charged(k, g);
    }
    assert k'.order[..|k.order|] == k.order && k'.procs[..|k.order|] == k.procs;
    assert k'.dirs - {dir} == k.dirs;
    assert k'.slots[FreeSlot(k.slots, 0) := null] == k.slots;
    assert Disowned(k'.frames, dir) == k.frames;
  }

  // ---------- switches and whole runs ----------

  /** The scheduler rotated its processes by `i` and changed only what they wait for, their state and their frame. */
  predicate RotatedBy(k: Records, k': Records, i: nat) {
    && i <= |k.order| == |k.procs| && AllAlike(Rotate(k.procs, i), k'.procs)
    && k' == k.(order := Rotate(k.order, i), procs := k'.procs)
  }

  predicate Live(k: Records, pid: int) {
    PROCESS_START_PID <= pid < PROCESS_START_PID + |k.slots| && k.slots[pid - PROCESS_START_PID] != null
  }

  /** The process that gave way is still live. */
  lemma StillLive(k: Records, k': Records, i: nat)
    requires Corresponds(k) && RotatedBy(k, k', i) && k.procs != []
    ensures Corresponds(k') && Live(k', k.procs[0].pid)
    ensures k'.dirs == k.dirs && forall j {:trigger k'.order[j]} :: 0 <= j < |k'.order| ==> k'.order[j] in k.order
  {
    RotatedCorresponds(k, k', i);
    RotatedMembers(k.order, i);
    assert Placed(k, 0);
  }

  lemma RotatedIs(k: Records, k': Records, i: nat)
    requires i <= |k.order| == |k.procs| && AllAlike(Rotate(k.procs, i), k'.procs)
    requires k' == k.(order := Rotate(k.order, i), procs := k'.procs)
    ensures RotatedBy(k, k', i)
  {
  }

  /** Where the process at place `j` was before the rotation. */
  function Place(n: nat, i: nat, j: nat): nat { if j + i < n then j + i else j + i - n }

  lemma RotatedAt(k: Records, k': Records, i: nat, j: nat)
    requires RotatedBy(k, k', i) && j < |k.order|
    ensures var l := Place(|k.order|, i, j);
      l < |k.order| && k'.order[j] == k.order[l] && Alike(k.procs[l], k'.procs[j])
  {
    RotateAt(k.order, i, j);
    RotateAt(k.procs, i, j);
    assert Alike(Rotate(k.procs, i)[j], k'.procs[j]);
  }

  /** A switch keeps the correspondence. */
  lemma RotatedCorresponds(k: Records, k': Records, i: nat)
    requires Corresponds(k) && RotatedBy(k, k', i)
    ensures Corresponds(k')
  {
    var n := |k.order|;
    forall j | 0 <= j < n
      ensures Owns(k', j) && Placed(k', j)
    {
      RotatedAt(k, k', i, j);
      assert Owns(k, Place(n, i, j)) && Placed(k, Place(n, i, j));
    }
    forall j, l | 0 <= j < l < n
      ensures Apart(k', j, l) && k'.order[j] != k'.order[l]
    {
      RotatedAt(k, k', i, j);
      RotatedAt(k, k', i, l);
      var a, b := Place(n, i, j), Place(n, i, l);
      assert if a < b then Apart(k, a, b) else Apart(k, b, a);
    }
    RotatedPresent(k, k', i);
    forall f | 0 <= f < |k'.frames|
      ensures Charged(k', f)
    {
      assert Charged(k, f);
    }
  }

  lemma RotatedPresent(k: Records, k': Records, i: nat)
    requires Corresponds(k) && RotatedBy(k, k', i)
    ensures forall d {:trigger InOrder(k', d)} :: d in k'.dirs ==> InOrder(k', d)
    ensures forall j {:trigger Queued(k', j)} :: 0 <= j < |k'.slots| ==> Queued(k', j)
  {
    var n := |k.order|;
    forall d | d in k'.dirs
      ensures InOrder(k', d)
    {
      assert InOrder(k, d);
      var l: nat :| OwnedBy(k, l, d);
      var j := Place(n, n - i, l);
      RotatedAt(k, k', i, j);
      assert OwnedBy(k', j, d);
    }
    forall m | 0 <= m < |k'.slots|
      ensures Queued(k', m)
    {
      assert Queued(k, m);
      if k.slots[m] != null {
        var l: nat :| Holds(k, l, m);
        var j := Place(n, n - i, l);
        RotatedAt(k, k', i, j);
        assert Holds(k', j, m);
      }
    }
  }

  /** One creation, destruction or switch, seen in the records. */
  datatype Change =
    | Creation(pcb: ProcessControlBlock, proc: Proc, dir: PageDirectory)
    | Destruction(i: nat, j: nat, dir: PageDirectory)
    | Switch(places: nat)

  predicate Changed(k: Records, c: Change, k': Records) {
    match c
    case Creation(pcb, p, dir) =>
      && HasRoom(k) && p.pid == FreeSlot(k.slots, 0) + PROCESS_START_PID && p.directory == dir
      && dir !in k.dirs && pcb !in k.order && k' == Created(k, pcb, p, dir)
    case Destruction(i, j, dir) =>
      Holds(k, i, j) && OwnedBy(k, i, dir) && k.count > 0 && k' == Destroyed(k, i, j, dir)
    case Switch(i) => RotatedBy(k, k', i)
  }

  predicate ChangedAt(ks: seq<Records>, cs: seq<Change>, n: nat)
    requires n < |cs| && n + 1 < |ks|
  {
    Changed(ks[n], cs[n], ks[n + 1])
  }

  ghost predicate History(ks: seq<Records>, cs: seq<Change>) {
    |ks| == |cs| + 1 && forall n {:trigger ChangedAt(ks, cs, n)} :: 0 <= n < |cs| ==> ChangedAt(ks, cs, n)
  }

  /** The correspondence over whole runs: no interleaving of creations, destructions, ticks and sleeps breaks it. */
  lemma {:induction false} HistoryCorresponds(ks: seq<Records>, cs: seq<Change>, n: nat)
    requires History(ks, cs) && Corresponds(ks[0]) && FramesDistinct(ks[0].frames) && n < |ks|
    ensures Corresponds(ks[n]) && FramesDistinct(ks[n].frames)
    decreases n
  {
    if n > 0 {
      HistoryCorresponds(ks, cs, n - 1);
      assert ChangedAt(ks, cs, n - 1);
      var k := ks[n - 1];
      match cs[n - 1]
      case Creation(pcb, p, dir) =>
        CreatedCorresponds(k, pcb, p, dir);
        CreatedDistinct(k, pcb, p, dir);
      case Destruction(i, j, dir) =>
        DestroyedCorresponds(k, i, j, dir);
      case Switch(i) =>
        RotatedCorresponds(k, ks[n], i);
    }
  }

  lemma CreatedDistinct(k: Records, pcb: ProcessControlBlock, p: Proc, dir: PageDirectory)
    requires Corresponds(k) && HasRoom(k) && dir !in k.dirs && FramesDistinct(k.frames)
    ensures FramesDistinct(Created(k, pcb, p, dir).frames)
  {
    assert forall f {:trigger k.frames[f]} :: 0 <= f < |k.frames| ==> Charged(k, f);
  }

  // ---------- the process manager ----------

  /** Frames the source asks for: those of the executable and one for the user stack. */
  function FramesNeeded(size: nat): nat { (size + PAGE_FRAME_SIZE + PAGE_FRAME_SIZE - 1) / PAGE_FRAME_SIZE }

  ghost predicate EnoughFrames(k: Records, size: nat) {
    FramesNeeded(size) <= PROCESS_PAGE_FRAME_COUNT_MAX
      && FramesNeeded(size) <= PAGE_FRAME_MAX_COUNT - InUse(k.frames) + 2
  }

  /** Everything that must hold before the program file is opened. The check of free frames counts two too many,
      so that a frame is there has to be said apart. */
  ghost predicate Admitted(k: Records, room: bool, dir_room: bool, entry: Stat) {
    && room && dir_room && k.count < PROCESS_COUNT_MAX
    && entry.Found? && entry.is_file && EnoughFrames(k, entry.size) && Unused in k.frames
  }

  lemma PrefilledFirst()
    ensures |Prefilled()| == PAGE_ENTRY_COUNT && !Prefilled()[0].present && UserAddress(0) && PageIndex(0) == 0
  {
  }

  class ProcessManager {
    const process_pids: array<ProcessControlBlock?>
    const scheduler: Scheduler
    const pages: PageManager
    var active_process_count: nat

    ghost function Footprint(): set<object>
      reads this, scheduler
    {
      pages.Footprint() + {this, process_pids, scheduler} + (set n <- scheduler.queue)
    }

    ghost function State(): Records
      requires pages.Shape()
      reads this, process_pids, scheduler, scheduler.Order(), pages.Footprint()
    {
      Records(process_pids[..], scheduler.Order(), scheduler.Procs(), pages.Frames(), pages.dirs, active_process_count)
    }

    /** The ready queue and the page frames are consistent, and the records are `k`. */
    ghost predicate Shows(k: Records)
      reads this, process_pids, scheduler, scheduler.queue, scheduler.Order(), pages.Footprint(), pages.dirs
    {
      && process_pids.Length == PROCESS_COUNT_MAX && scheduler.Valid() && pages.Valid()
      && Exclusive(pages.Frames(), pages.Tables()) && State() == k
    }

    ghost predicate Valid()
      reads this, process_pids, scheduler, scheduler.queue, scheduler.Order(), pages.Footprint(), pages.dirs
    {
      pages.Shape() && Shows(State()) && Corresponds(State())
    }

    /** The lowest free process id; -1 if the table is full. */
    method GetFreePid() returns (pid: int)
      requires process_pids.Length == PROCESS_COUNT_MAX
      ensures pid == var s := FreeSlot(process_pids[..], 0); if s == PROCESS_COUNT_MAX then -1
        else s + PROCESS_START_PID
    {
      var idx := 0;
      while idx < PROCESS_COUNT_MAX
        invariant 0 <= idx <= PROCESS_COUNT_MAX && forall j :: 0 <= j < idx ==> process_pids[..][j] != null
      {
        if process_pids[idx] == null { break; }
        idx := idx + 1;
      }
      if idx == PROCESS_COUNT_MAX { return -1; }
      assert process_pids[..][idx] == null && FreeSlot(process_pids[..], 0) == idx;
      pid := idx + PROCESS_START_PID;
    }

    constructor (scheduler: Scheduler, pages: PageManager)
      requires scheduler.Valid() && scheduler.Nodes() == [] && pages.Valid() && pages.dirs == {}
      requires InUse(pages.Frames()) == 2 && Exclusive(pages.Frames(), pages.Tables())
      ensures Valid() && this.scheduler == scheduler && this.pages == pages && active_process_count == 0
    {
      this.scheduler, this.pages := scheduler, pages;
      process_pids := new ProcessControlBlock?[PROCESS_COUNT_MAX](_ => null);
      active_process_count := 0;
      new;
      var us, ts := pages.Frames(), pages.Tables();
      assert forall i :: 0 <= i < PROCESS_COUNT_MAX ==> process_pids[..][i] == null;
      NoneTaken(process_pids[..]);
      forall f | 0 <= f < |us|
        ensures Charged(State(), f)
      {
        assert Backed(us, ts, f);
      }
    }

    /** Lines 85-108: the checks, the process id and the page frame, in the order of the source. */
    method Reserve(page_directory: PageDirectory, entry: Stat, ghost k: Records) returns (pid: int, status: bool)
      requires Shows(Entered(k, page_directory)) && Corresponds(k) && page_directory.table == Prefilled()
      modifies pages`free_page_frame_count, pages.mapped, pages.mapped_address, pages.mapped_dir, page_directory
      ensures status <==> Admitted(k, true, true, entry)
      ensures status ==>
        HasRoom(k) && pid == FreeSlot(k.slots, 0) + PROCESS_START_PID && Shows(Mapped(k, page_directory))
      ensures !status ==> Shows(Entered(k, page_directory))
    {
      pid, status := -1, false;
      var admit := Admit(entry, Entered(k, page_directory));
      if admit {
        TakenBound(k.slots);
        assert process_pids[..] == k.slots;
        hide Shows, Corresponds;
        pid := GetFreePid();
        if pid >= 0 {
          status := MapProgram(page_directory, k);
        }
      }
    }

    /** Lines 85-95. */
    method Admit(entry: Stat, ghost k: Records) returns (ok: bool)
      requires Shows(k)
      ensures ok == (k.count < PROCESS_COUNT_MAX && entry.Found? && entry.is_file && EnoughFrames(k, entry.size))
    {
      hide Exclusive, Scheduler.Valid;
      if active_process_count >= PROCESS_COUNT_MAX { return false; }
      if entry.Missing? || !entry.is_file { return false; }
      var page_frame_count_needed := (entry.size + PAGE_FRAME_SIZE + PAGE_FRAME_SIZE - 1) / PAGE_FRAME_SIZE;
      var enough := pages.AllocateCheck(page_frame_count_needed);
      ok := enough && page_frame_count_needed <= PROCESS_PAGE_FRAME_COUNT_MAX;
    }

    /** Lines 106-107: one frame at address 0. */
    method MapProgram(page_directory: PageDirectory, ghost k: Records) returns (status: bool)
      requires Shows(Entered(k, page_directory)) && page_directory.table == Prefilled()
      requires FreeSlot(k.slots, 0) < |k.slots|
      modifies pages`free_page_frame_count, pages.mapped, pages.mapped_address, pages.mapped_dir, page_directory
      ensures status <==> Unused in k.frames
      ensures if status then HasRoom(k) && Shows(Mapped(k, page_directory)) else Shows(Entered(k, page_directory))
    {
      StateParts(Entered(k, page_directory));
      hide Exclusive, Scheduler.Valid, State, Scheduler.Order, PageManager.Valid, PageManager.Frames,
           PageManager.Tables, Prefilled;
      status := MapFrame(page_directory);
      StateIs(if status then Mapped(k, page_directory) else Entered(k, page_directory));
    }

    method MapFrame(page_directory: PageDirectory) returns (status: bool)
      requires pages.Valid() && Exclusive(pages.Frames(), pages.Tables())
      requires page_directory in pages.dirs && page_directory.table == Prefilled()
      modifies pages`free_page_frame_count, pages.mapped, pages.mapped_address, pages.mapped_dir, page_directory
      ensures pages.Valid() && pages.Shape() && Exclusive(pages.Frames(), pages.Tables())
      ensures var us := old(pages.Frames());
        && (status <==> Unused in us) && (status ==> FirstUnused(us, 0) < |us|)
        && pages.Frames() == if status then us[FirstUnused(us, 0) := Owned(page_directory, 0)] else us
    {
      ghost var us, ts := pages.Frames(), pages.Tables();
      ghost var f := FirstUnused(us, 0);
      assert ts[page_directory] == Prefilled();
      PrefilledFirst();
      hide Exclusive, Prefilled;
      status := pages.AllocateFrame(page_directory, 0);
      if status {
        AllocateExclusive(us, ts, f, page_directory, 0);
        assert pages.Tables() == AllocatedTables(ts, page_directory, 0, UserEntry(f));
      } else {
        assert pages.Tables() == ts;
      }
    }

    /** Lines 118-130: fill in the process, and enter it in the table and the queue. */
    method Enter(pcb: ProcessControlBlock, page_directory: PageDirectory, pid: int, name: string, ghost k: Records)
      requires HasRoom(k) && Shows(Mapped(k, page_directory)) && Corresponds(k) && page_directory !in k.dirs
      requires pid == FreeSlot(k.slots, 0) + PROCESS_START_PID && Blank(pcb) && pcb !in k.order
      modifies this, process_pids, scheduler, scheduler.queue, pcb
      ensures scheduler.current_running == old(scheduler.current_running)
      ensures forall n <- scheduler.queue :: fresh(n) || n in old(scheduler.queue)
      ensures pcb.page_directory == page_directory && pcb.page_frame_used_count == 1 && pcb.name == name
      ensures Shows(CreatedWith(k, pid, pcb, page_directory))
    {
      hide Shows, Corresponds;
      ghost var k1 := Mapped(k, page_directory);
      FillIn(pcb, page_directory, pid, name, k1);
      ReservePid(pid, pcb, k1);
      AddToQueue(pcb, k1.(slots := k1.slots[pid - PROCESS_START_PID := pcb], count := k1.count + 1));
    }

    /** Lines 99-100, 118-121, 127 and 39: the fields of the process. */
    method FillIn(pcb: ProcessControlBlock, page_directory: PageDirectory, pid: int, name: string, ghost k: Records)
      requires Blank(pcb) && pcb !in k.order && Shows(k)
      modifies pcb
      ensures ProcOf(pcb) == Proc(pid, Ready, START_FRAME, NoWait, false, page_directory)
      ensures pcb.page_frame_used_count == 1 && pcb.name == name && Shows(k)
    {
      StateParts(k);
      hide Exclusive, Scheduler.Valid, PageManager.Valid, State, PageManager.Frames, PageManager.Tables;
      pcb.state := Ready;
      pcb.frame := START_FRAME;
      pcb.page_directory := page_directory;
      pcb.page_frame_used_count := pcb.page_frame_used_count + 1;
      pcb.name := name;
      pcb.pid := pid;
      StateIs(k);
    }

    /** Lines 123 and 36-38. */
    method ReservePid(pid: int, pcb: ProcessControlBlock, ghost k: Records)
      requires Shows(k) && PROCESS_START_PID <= pid < PROCESS_START_PID + |k.slots|
      modifies this`active_process_count, process_pids
      ensures Shows(k.(slots := k.slots[pid - PROCESS_START_PID := pcb], count := k.count + 1))
    {
      StateParts(k);
      hide Exclusive, Scheduler.Valid, PageManager.Valid, State, PageManager.Frames, PageManager.Tables,
           Scheduler.Order;
      active_process_count := active_process_count + 1;
      process_pids[pid - PROCESS_START_PID] := pcb;
      StateIs(k.(slots := k.slots[pid - PROCESS_START_PID := pcb], count := k.count + 1));
    }

    method AddToQueue(pcb: ProcessControlBlock, ghost k: Records)
      requires Shows(k)
      modifies scheduler, scheduler.queue
      ensures Shows(k.(order := k.order + [pcb], procs := k.procs + [ProcOf(pcb)]))
      ensures scheduler.current_running == old(scheduler.current_running)
      ensures forall n <- scheduler.queue :: fresh(n) || n in old(scheduler.queue)
    {
      StateParts(k);
      hide Exclusive, Scheduler.Valid, PageManager.Valid, State, PageManager.Frames, PageManager.Tables;
      scheduler.Add(pcb);
      StateIs(k.(order := k.order + [pcb], procs := k.procs + [ProcOf(pcb)]));
    }

    /** Releases everything the process holds. The source demands that the scheduler runs and that `pid` is live. */
    method Destroy(pid: int) returns (r: int)
      requires Valid() && scheduler.current_running != null
      requires PROCESS_START_PID <= pid < PROCESS_START_PID + PROCESS_COUNT_MAX
      requires process_pids[pid - PROCESS_START_PID] != null
      modifies Footprint(), scheduler.Order(), pages.dirs
      ensures Valid() && scheduler.current_running == old(scheduler.current_running)
      ensures if old(scheduler.current_running.pcb.pid) == pid then r == -1 && State() == old(State())
              else r == 0 && WasDestroyed(old(State()), State(), pid)
    {
      ghost var k, k' := State(), State();
      r, k' := DestroyShown(pid, k);
      ValidIs(k');
    }

    method DestroyShown(pid: int, ghost k: Records) returns (r: int, ghost k': Records)
      requires Shows(k) && Corresponds(k) && scheduler.current_running != null && Live(k, pid)
      modifies this, process_pids, scheduler, scheduler.queue, pages, pages.mapped, pages.mapped_address,
        pages.mapped_dir, k.order, k.dirs
      ensures Shows(k') && Corresponds(k') && scheduler.current_running == old(scheduler.current_running)
      ensures k.procs != [] && if k.procs[0].pid == pid then r == -1 && k' == k else r == 0 && WasDestroyed(k, k', pid)
    {
      ghost var i := Locate(pid, k);
      ghost var ts := pages.Tables();
      k' := k;
      var current := CurrentPid(k);
      hide Shows, Corresponds, Destroyed;
      if pid == current { return -1, k'; }
      var pcb := process_pids[pid - PROCESS_START_PID];
      Release(pcb, pid, k, i);
      DestroyedAgain(k, ts, i, pid);
      k' := Destroyed(k, i, pid - PROCESS_START_PID, k.procs[i].directory);
      r := 0;
    }

    method CurrentPid(ghost k: Records) returns (pid: int)
      requires Shows(k) && scheduler.current_running != null
      ensures Shows(k) && k.procs != [] && pid == k.procs[0].pid
      ensures scheduler.current_running == old(scheduler.current_running)
      ensures scheduler.queue == old(scheduler.queue) && scheduler.Nodes() == old(scheduler.Nodes())
    {
      pid := scheduler.CurrentRunningPid();
      assert scheduler.Order()[0] == scheduler.current_running.pcb && State() == old(State());
    }

    /** A timer tick of main_interrupt_handler: a switch in the records, a tick of the scheduler. */
    method TimerTick(frame: InterruptFrame, wake: Wake) returns (recalled: bool, ghost i: nat)
      requires Valid()
      modifies scheduler, scheduler.cr3, scheduler.Nodes(), scheduler.Order(), frame
      ensures Valid() && Changed(old(State()), Switch(i), State())
      ensures old(scheduler.current_running) == null ==> scheduler.current_running == null && State() == old(State())
      ensures old(scheduler.current_running) != null ==>
        scheduler.current_running != null && Step(old(State()).procs, Tick(old(frame.value)), wake, State().procs)
      ensures forall n <- scheduler.Nodes() :: n in old(scheduler.Nodes())
      ensures forall p <- scheduler.Order() :: p in old(scheduler.Order())
    {
      ghost var k, k' := State(), State();
      recalled, i, k' := ScheduleTick(frame, wake, k);
      RotatedCorresponds(k, k', i);
      ValidIs(k');
    }

    method ScheduleTick(frame: InterruptFrame, wake: Wake, ghost k: Records)
      returns (recalled: bool, ghost i: nat, ghost k': Records)
      requires Shows(k) && Distinct(k.order)
      modifies scheduler, scheduler.cr3, scheduler.Nodes(), k.order, frame
      ensures Shows(k') && RotatedBy(k, k', i)
      ensures old(scheduler.current_running) == null ==> scheduler.current_running == null && k' == k
      ensures old(scheduler.current_running) != null ==>
        scheduler.current_running != null && Step(k.procs, Tick(old(frame.value)), wake, k'.procs)
      ensures forall n <- scheduler.Nodes() :: n in old(scheduler.Nodes())
      ensures forall j {:trigger scheduler.queue[j]} :: 0 <= j < |scheduler.queue| ==>
        scheduler.queue[j] in old(scheduler.Nodes())
    {
      ShowsParts(k);
      hide *;
      recalled, i := scheduler.HandleTimerInterrupt(frame, wake);
      QueueNodes();
      k' := k.(order := scheduler.Order(), procs := scheduler.Procs());
      pages.Untouched();
      ShowsIs(k');
      RotatedIs(k, k', i);
    }

    /** The current process halts until `wait` holds: a switch in the records, a sleep of the scheduler. */
    method Sleep(frame: InterruptFrame, wait: Wait, recall: bool, wake: Wake, ghost t: nat, ghost i: nat)
      returns (recalled: bool, ghost places: nat)
      requires Valid() && scheduler.current_running != null
      requires frame.value.int_number == SYSCALL_INT ==>
        Picks(Halted(State().procs, frame.value, wait, recall), wake, t, i)
      modifies scheduler, scheduler.cr3, scheduler.Nodes(), scheduler.Order(), frame
      ensures Valid() && scheduler.current_running != null && Changed(old(State()), Switch(places), State())
      ensures Step(old(State()).procs, RoundRobin.Sleep(old(frame.value), wait, recall), wake, State().procs)
      ensures forall n <- scheduler.Nodes() :: n in old(scheduler.Nodes())
      ensures forall p <- scheduler.Order() :: p in old(scheduler.Order())
    {
      ghost var k, k' := State(), State();
      CurrentPlaced(k);
      recalled, places, k' := ScheduleSleep(frame, wait, recall, wake, t, i, k);
      RotatedCorresponds(k, k', places);
      ValidIs(k');
    }

    /** The table finds the current process. */
    lemma CurrentPlaced(k: Records)
      requires Shows(k) && Corresponds(k) && scheduler.current_running != null
      ensures var idx := scheduler.current_running.pcb.pid - PROCESS_START_PID;
        0 <= idx < process_pids.Length && process_pids[idx] == scheduler.current_running.pcb
    {
      assert Placed(k, 0) && scheduler.Order()[0] == scheduler.current_running.pcb;
    }

    method ScheduleSleep(frame: InterruptFrame, wait: Wait, recall: bool, wake: Wake, ghost t: nat, ghost i: nat,
                         ghost k: Records)
      returns (recalled: bool, ghost places: nat, ghost k': Records)
      requires Shows(k) && Distinct(k.order) && scheduler.current_running != null
      requires var idx := scheduler.current_running.pcb.pid - PROCESS_START_PID;
        0 <= idx < process_pids.Length && process_pids[idx] == scheduler.current_running.pcb
      requires frame.value.int_number == SYSCALL_INT ==> Picks(Halted(k.procs, frame.value, wait, recall), wake, t, i)
      modifies scheduler, scheduler.cr3, scheduler.Nodes(), scheduler.Order(), frame
      ensures Shows(k') && RotatedBy(k, k', places) && scheduler.current_running != null
      ensures Step(k.procs, RoundRobin.Sleep(old(frame.value), wait, recall), wake, k'.procs)
      ensures forall n <- scheduler.Nodes() :: n in old(scheduler.Nodes())
      ensures forall p <- scheduler.Order() :: p in old(scheduler.Order())
    {
      ShowsParts(k);
      hide *;
      recalled, places := scheduler.HaltCurrentProcess(frame, wait, recall, wake, process_pids, t, i);
      k' := k.(order := scheduler.Order(), procs := scheduler.Procs());
      pages.Untouched();
      ShowsIs(k');
      RotatedIs(k, k', places);
      scheduler.OrderlyRuns();
    }

    /** The queue part of scheduler_init: the records stay, and the front of the queue runs. */
    method Start() returns (frame: Frame)
      requires Valid() && (scheduler.current_running == null ==> scheduler.queue != [])
      modifies scheduler, scheduler.cr3, scheduler.queue
      ensures Valid() && State() == old(State()) && scheduler.current_running != null && frame == State().procs[0].frame
    {
      ghost var k := State();
      frame := ScheduleStart(k);
      ValidIs(k);
    }

    method ScheduleStart(ghost k: Records) returns (frame: Frame)
      requires Shows(k) && (scheduler.current_running == null ==> scheduler.queue != [])
      modifies scheduler, scheduler.cr3, scheduler.queue
      ensures Shows(k) && scheduler.current_running != null && k.procs != [] && frame == k.procs[0].frame
    {
      ShowsParts(k);
      hide *;
      frame := scheduler.Init();
      pages.Untouched();
      ShowsIs(k);
    }

    /** Lines 134-145 of src/kernel/c/cpu/interrupt.c, the EXIT syscall: the current process gives way and is
        destroyed, unless it is the one that takes over. The page fault does the same without looking. */
    method Exit(frame: InterruptFrame, wake: Wake)
      returns (result: int, recalled: bool, ghost i: nat, ghost mid: Records)
      requires Valid() && scheduler.current_running != null
      modifies Footprint(), scheduler.cr3, scheduler.Nodes(), scheduler.Order(), pages.dirs, frame
      ensures Valid() && scheduler.current_running != null && Changed(old(State()), Switch(i), mid)
      ensures Step(old(State()).procs, Tick(old(frame.value)), wake, mid.procs)
      ensures mid.procs != [] && if mid.procs[0].pid == old(State()).procs[0].pid then result == -1 && State() == mid
              else result == 0 && WasDestroyed(mid, State(), old(State()).procs[0].pid)
    {
      ghost var k, k' := State(), State();
      result, recalled, i, mid, k' := ExitShown(frame, wake, k);
      ValidIs(k');
    }

    method ExitShown(frame: InterruptFrame, wake: Wake, ghost k: Records)
      returns (result: int, recalled: bool, ghost i: nat, ghost mid: Records, ghost k': Records)
      requires Shows(k) && Corresponds(k) && scheduler.current_running != null
      modifies this, process_pids, scheduler, scheduler.cr3, scheduler.Nodes(), frame
      modifies pages, pages.mapped, pages.mapped_address, pages.mapped_dir, k.order, k.dirs
      ensures Shows(k') && Corresponds(k') && scheduler.current_running != null
      ensures k.procs != [] && mid.procs != [] && RotatedBy(k, mid, i)
      ensures Step(k.procs, Tick(old(frame.value)), wake, mid.procs)
      ensures if mid.procs[0].pid == k.procs[0].pid then result == -1 && k' == mid
              else result == 0 && WasDestroyed(mid, k', k.procs[0].pid)
    {
      ShowsParts(k);
      assert Distinct(k.order);
      hide *;
      var pid := CurrentPid(k);
      recalled, i, mid := ScheduleTick(frame, wake, k);
      StillLive(k, mid, i);
      var new_pid := CurrentPid(mid);
      k' := mid;
      if pid == new_pid { return -1, recalled, i, mid, k'; }
      result, k' := DestroyShown(pid, mid);
    }

    lemma QueueNodes()
      ensures forall n <- scheduler.queue :: n in scheduler.Nodes()
    {
    }

    lemma ShowsParts(k: Records)
      requires Shows(k)
      ensures process_pids.Length == PROCESS_COUNT_MAX && scheduler.Valid() && pages.Shape() && pages.Valid()
      ensures Distinct(k.order) && scheduler.current_running != null ==> scheduler.Orderly()
      ensures Exclusive(pages.Frames(), pages.Tables()) && process_pids[..] == k.slots && pages.Frames() == k.frames
      ensures pages.dirs == k.dirs && active_process_count == k.count
      ensures scheduler.Order() == k.order && scheduler.Procs() == k.procs
      ensures |k.order| == |k.procs| == |scheduler.Nodes()|
    {
    }

    lemma ShowsIs(k: Records)
      requires process_pids.Length == PROCESS_COUNT_MAX && (scheduler.Valid() || scheduler.Orderly()) && pages.Shape()
      requires pages.Valid()
      requires Exclusive(pages.Frames(), pages.Tables()) && process_pids[..] == k.slots && pages.Frames() == k.frames
      requires pages.dirs == k.dirs && active_process_count == k.count && scheduler.Order() == k.order
      requires scheduler.Procs() == k.procs
      ensures Shows(k)
    {
    }

    /** Where the scheduler has a live process. */
    lemma Locate(pid: int, k: Records) returns (i: nat)
      requires Shows(k) && Corresponds(k) && scheduler.current_running != null && Live(k, pid)
      ensures i == IndexOf(k.procs, pid, 0) && Holds(k, i, pid - PROCESS_START_PID) && Owns(k, i)
      ensures Distinct(k.order) && (i == 0 <==> k.procs[0].pid == pid)
      ensures process_pids.Length == PROCESS_COUNT_MAX && process_pids[..] == k.slots
      ensures k.order[i].page_directory == k.procs[i].directory
    {
      assert Queued(k, pid - PROCESS_START_PID);
      i :| Holds(k, i, pid - PROCESS_START_PID);
      var l := IndexOf(k.procs, pid, 0);
      assert Placed(k, l) && Owns(k, i);
    }

    /** Lines 143-150. */
    method Release(pcb: ProcessControlBlock, pid: int, ghost k: Records, ghost i: nat)
      requires pid >= PROCESS_START_PID && Shows(k) && Corresponds(k) && Holds(k, i, pid - PROCESS_START_PID) && 0 < i
      requires k.order[i] == pcb
      requires Distinct(k.order)
      requires pcb.page_directory != null && pcb.page_directory == k.procs[i].directory && pcb.page_directory in k.dirs
      requires scheduler.current_running != null
      modifies this, process_pids, scheduler, scheduler.queue, pcb, pcb.page_directory
      modifies pages, pages.mapped, pages.mapped_address, pages.mapped_dir
      ensures k.count > 0 && Shows(Destroyed(k, i, pid - PROCESS_START_PID, k.procs[i].directory))
      ensures scheduler.current_running == old(scheduler.current_running)
    {
      CountPositive(k);
      hide Shows, Corresponds;
      var page_directory := pcb.page_directory;
      ghost var k1 := k.(procs := k.procs[i := k.procs[i].(state := Inactive)]);
      Deactivate(pcb, k, i);
      RemoveFromQueue(pcb, k1, i);
      ghost var k2 := k.(order := Cut(k.order, i), procs := Cut(k.procs, i));
      assert Cut(k1.procs, i) == k2.procs;
      FreeProcessDirectory(page_directory, k2);
      SetFreePid(pid, k2.(frames := Disowned(k.frames, page_directory), dirs := k.dirs - {page_directory}));
    }

    method Deactivate(pcb: ProcessControlBlock, ghost k: Records, ghost i: nat)
      requires Shows(k) && i < |k.order| == |k.procs| && k.order[i] == pcb && Distinct(k.order)
      modifies pcb`state
      ensures Shows(k.(procs := k.procs[i := k.procs[i].(state := Inactive)]))
    {
      StateParts(k);
      hide Exclusive, Scheduler.Valid, PageManager.Valid, State, PageManager.Frames, PageManager.Tables;
      pcb.state := Inactive;
      StateIs(k.(procs := k.procs[i := k.procs[i].(state := Inactive)]));
    }

    method RemoveFromQueue(pcb: ProcessControlBlock, ghost k: Records, ghost i: nat)
      requires Shows(k) && 0 < i < |k.order| == |k.procs| && k.order[i] == pcb && Distinct(k.order)
      requires scheduler.current_running != null
      modifies scheduler, scheduler.queue
      ensures Shows(k.(order := Cut(k.order, i), procs := Cut(k.procs, i)))
      ensures scheduler.current_running == old(scheduler.current_running)
    {
      ShowsParts(k);
      hide *;
      scheduler.RemoveAt(pcb, i);
      ghost var k' := k.(order := Cut(k.order, i), procs := Cut(k.procs, i));
      CutIs(k.order, i);
      CutIs(k.procs, i);
      pages.Untouched();
      ShowsIs(k');
    }

    method FreeProcessDirectory(page_directory: PageDirectory, ghost k: Records)
      requires Shows(k) && page_directory in k.dirs
      modifies pages, pages.mapped, pages.mapped_address, pages.mapped_dir, page_directory
      ensures Shows(k.(frames := Disowned(k.frames, page_directory), dirs := k.dirs - {page_directory}))
    {
      StateParts(k);
      hide Exclusive, Scheduler.Valid, State, Scheduler.Order;
      var freed := pages.FreeDirectory(page_directory);
      StateIs(k.(frames := Disowned(k.frames, page_directory), dirs := k.dirs - {page_directory}));
    }

    method SetFreePid(pid: int, ghost k: Records)
      requires Shows(k) && PROCESS_START_PID <= pid < PROCESS_START_PID + |k.slots| && k.count > 0
      modifies this`active_process_count, process_pids
      ensures Shows(k.(slots := k.slots[pid - PROCESS_START_PID := null], count := k.count - 1))
    {
      StateParts(k);
      hide Exclusive, Scheduler.Valid, PageManager.Valid, State, PageManager.Frames, PageManager.Tables,
           Scheduler.Order;
      process_pids[pid - PROCESS_START_PID] := null;
      active_process_count := active_process_count - 1;
      StateIs(k.(slots := k.slots[pid - PROCESS_START_PID := null], count := k.count - 1));
    }

    lemma CountPositive(k: Records)
      requires Corresponds(k) && k.order != []
      ensures k.count > 0
    {
    }

    lemma StateParts(k: Records)
      requires pages.Shape() && State() == k
      ensures process_pids[..] == k.slots && scheduler.Order() == k.order && pages.Frames() == k.frames
      ensures pages.dirs == k.dirs
      ensures active_process_count == k.count && Show(k.order, k.procs)
    {
    }

    lemma StateIs(k: Records)
      requires pages.Shape() && process_pids[..] == k.slots && scheduler.Order() == k.order
      requires pages.Frames() == k.frames && pages.dirs == k.dirs
      requires active_process_count == k.count && Show(k.order, k.procs)
      ensures State() == k
    {
      assert scheduler.Procs() == k.procs;
    }

    /** `room` and `dir_room` say whether the kernel heap has memory for the process and its directory, `entry`
        and `ft` what the file system answers to stat and open, `name` the last component of the path. */
    method Create(name: string, room: bool, dir_room: bool, entry: Stat, ft: int)
      returns (pid: int, ghost pcb: ProcessControlBlock?)
      requires Valid() && (entry.Found? ==> entry.size + 2 * PAGE_FRAME_SIZE <= 0x8000_0000)
      modifies Footprint(), scheduler.cr3
      ensures Valid() && scheduler.current_running == old(scheduler.current_running)
      ensures pid >= PROCESS_START_PID <==> Admitted(old(State()), room, dir_room, entry) && ft >= 0
      ensures pid < PROCESS_START_PID ==> pid == -1 && State() == old(State())
      ensures pid >= PROCESS_START_PID ==>
        WasCreated(old(State()), State(), pid, name, pcb) && fresh(pcb) && fresh(pcb.page_directory)
      ensures scheduler.cr3.directory == old(scheduler.cr3.directory)
        <==> !(Admitted(old(State()), room, dir_room, entry) && ft < 0)
    {
      ghost var k := State();
      hide Valid, Shows, State, Corresponds, Admitted, Created, PageManager.Valid;
      var new_pcb := AllocateProcess(room, k);
      var page_directory := CreateDirectory(dir_room, k);
      pid, pcb := -1, null;
      if new_pcb != null && page_directory != null {
        pid := TryCreate(name, new_pcb, page_directory, entry, ft, k);
      } else {
        NotAdmitted(k, room, dir_room, entry);
      }
      if pid < PROCESS_START_PID {
        Discard(page_directory, k);
        ValidIs(k);
      } else {
        pcb := new_pcb;
        ValidIs(CreatedWith(k, pid, pcb, page_directory));
      }
    }

    lemma ValidIs(k: Records)
      requires Shows(k) && Corresponds(k)
      ensures Valid() && State() == k
    {
    }

    method AllocateProcess(room: bool, ghost k: Records) returns (pcb: ProcessControlBlock?)
      requires Valid() && State() == k
      ensures Shows(k) && Corresponds(k)
      ensures pcb == null <==> !room
      ensures pcb != null ==> fresh(pcb) && pcb !in k.order && Blank(pcb)
    {
      pcb := null;
      if room {
        pcb := new ProcessControlBlock(Frame(0, 0, 0, 0, 0, 0, 0, 0, 0, 0, 0, 0, 0, 0, 0, 0, 0, 0, 0));
      }
    }

    method CreateDirectory(dir_room: bool, ghost k: Records) returns (page_directory: PageDirectory?)
      requires Shows(k)
      modifies pages`dirs
      ensures page_directory == null <==> !dir_room
      ensures page_directory == null ==> Shows(k)
      ensures page_directory != null ==> fresh(page_directory) && page_directory !in k.dirs
      ensures page_directory != null ==> page_directory.table == Prefilled() && Shows(Entered(k, page_directory))
    {
      StateParts(k);
      hide Corresponds, Exclusive, Scheduler.Valid, PageManager.Valid, State, Show, Scheduler.Order, PageManager.Frames,
           Prefilled;
      page_directory := pages.CreateDirectory(dir_room);
      if page_directory == null {
        StateIs(k);
      } else {
        assert pages.Tables()[page_directory] == Prefilled();
        StateIs(Entered(k, page_directory));
      }
    }

    lemma NotAdmitted(k: Records, room: bool, dir_room: bool, entry: Stat)
      ensures !room || !dir_room ==> !Admitted(k, room, dir_room, entry)
    {
    }

    method UseDirectory(page_directory: PageDirectory?, ghost k: Records)
      requires Shows(k)
      modifies scheduler.cr3
      ensures Shows(k) && scheduler.cr3.directory == page_directory
    {
      scheduler.cr3.directory := page_directory;
    }

    /** Lines 85-131. */
    method TryCreate(name: string, new_pcb: ProcessControlBlock, page_directory: PageDirectory, entry: Stat, ft: int,
                     ghost k: Records)
      returns (pid: int)
      requires Shows(Entered(k, page_directory)) && Corresponds(k) && page_directory !in k.dirs
      requires page_directory.table == Prefilled()
      requires Blank(new_pcb) && new_pcb !in k.order
      modifies this, process_pids, scheduler, scheduler.queue, scheduler.cr3, new_pcb, page_directory
      modifies pages`free_page_frame_count, pages.mapped, pages.mapped_address, pages.mapped_dir
      ensures scheduler.current_running == old(scheduler.current_running)
      ensures forall n <- scheduler.queue :: fresh(n) || n in old(scheduler.queue)
      ensures pid >= PROCESS_START_PID <==> Admitted(k, true, true, entry) && ft >= 0
      ensures pid >= PROCESS_START_PID ==> HasRoom(k) && pid == FreeSlot(k.slots, 0) + PROCESS_START_PID
      ensures pid >= PROCESS_START_PID ==> Shows(CreatedWith(k, pid, new_pcb, page_directory))
      ensures pid >= PROCESS_START_PID ==> Corresponds(CreatedWith(k, pid, new_pcb, page_directory))
      ensures pid >= PROCESS_START_PID ==>
        new_pcb.page_directory == page_directory && new_pcb.page_frame_used_count == 1 && new_pcb.name == name
      ensures pid < PROCESS_START_PID ==> pid == -1
      ensures pid < PROCESS_START_PID ==>
        Shows(Entered(k, page_directory)) || (HasRoom(k) && Shows(Mapped(k, page_directory)))
      ensures scheduler.cr3.directory == if Admitted(k, true, true, entry) && ft < 0 then page_directory
        else old(scheduler.cr3.directory)
    {
      hide Shows, Corresponds, Admitted, Created, Mapped, PageManager.Valid;
      var status;
      pid, status := Reserve(page_directory, entry, k);
      if status {
        var current_page_directory := scheduler.cr3.directory;
        UseDirectory(page_directory, Mapped(k, page_directory));
        if ft >= 0 {
          UseDirectory(current_page_directory, Mapped(k, page_directory));
          Enter(new_pcb, page_directory, pid, name, k);
          CreatedCorresponds(k, new_pcb, Proc(pid, Ready, START_FRAME, NoWait, false, page_directory), page_directory);
          return;
        }
      }
      pid := -1;
    }

    /** Lines 133-136. */
    method Discard(page_directory: PageDirectory?, ghost k: Records)
      requires Corresponds(k)
      requires page_directory == null ==> Shows(k)
      requires page_directory != null ==> page_directory !in k.dirs
      requires page_directory != null ==>
        Shows(Entered(k, page_directory)) || (HasRoom(k) && Shows(Mapped(k, page_directory)))
      modifies pages, pages.mapped, pages.mapped_address, pages.mapped_dir, page_directory
      ensures Shows(k)
    {
      if page_directory != null {
        DisownedFresh(k, pages.Frames(), page_directory);
        StateParts(State());
        hide Corresponds, Exclusive, Scheduler.Valid, State, Show, Scheduler.Order;
        var freed := pages.FreeDirectory(page_directory);
        assert pages.dirs == k.dirs;
        StateIs(k);
      }
    }
  }

  ghost predicate Show(order: seq<ProcessControlBlock>, procs: seq<Proc>)
    reads order
  {
    |order| == |procs| && forall i {:trigger procs[i]} {:trigger order[i]} :: 0 <= i < |procs| ==>
      ProcOf(order[i]) == procs[i]
  }

  /** What a successful creation does: one more process in all the records, Ready to start at address 0. */
  ghost predicate WasCreated(k: Records, k': Records, pid: int, name: string, pcb: ProcessControlBlock?)
    reads pcb
  {
    && pcb != null && pcb.page_directory != null && pcb.page_frame_used_count == 1 && pcb.name == name
    && HasRoom(k) && pid == FreeSlot(k.slots, 0) + PROCESS_START_PID && pcb !in k.order && pcb.page_directory !in k.dirs
    && k' == CreatedWith(k, pid, pcb, pcb.page_directory)
  }

  /** What a destruction does: one process less in all the records. */
  ghost predicate WasDestroyed(k: Records, k': Records, pid: int) {
    var i := IndexOf(k.procs, pid, 0);
    && pid >= PROCESS_START_PID && Holds(k, i, pid - PROCESS_START_PID) && i > 0 && k.count > 0
       && k.procs[i].directory != null
    && k' == Destroyed(k, i, pid - PROCESS_START_PID, k.procs[i].directory)
  }

  function CreatedWith(k: Records, pid: int, pcb: ProcessControlBlock, dir: PageDirectory): Records
    requires HasRoom(k)
  {
    Created(k, pcb, Proc(pid, Ready, START_FRAME, NoWait, false, dir), dir)
  }

  /** The fields memset clears. */
  predicate Blank(pcb: ProcessControlBlock)
    reads pcb
  {
    pcb.wait == NoWait && !pcb.recall && pcb.page_frame_used_count == 0
  }

  lemma CutIs<T>(s: seq<T>, i: nat)
    requires i < |s|
    ensures Cut(s, i) == s[..i] + s[i + 1..]
  {
  }

  function Cut<T>(s: seq<T>, i: nat): seq<T>
    requires i < |s|
  {
    s[..i] + s[i + 1..]
  }

  lemma DestroyedAgain(k: Records, ts: Tables, i: nat, pid: int)
    requires pid >= PROCESS_START_PID && Corresponds(k) && Holds(k, i, pid - PROCESS_START_PID)
    requires i == IndexOf(k.procs, pid, 0) && i > 0
    requires k.procs[i].directory != null && Exclusive(k.frames, ts)
    ensures k.count > 0
    ensures var k' := Destroyed(k, i, pid - PROCESS_START_PID, k.procs[i].directory);
      Corresponds(k') && WasDestroyed(k, k', pid)
  {
    ExclusiveDistinct(k.frames, ts);
    DestroyedCorresponds(k, i, pid - PROCESS_START_PID, k.procs[i].directory);
  }

  /** A successful creation is one change of the history. */
  lemma CreateIsChange(k: Records, k': Records, pid: int, name: string, pcb: ProcessControlBlock?)
    requires WasCreated(k, k', pid, name, pcb)
    ensures var dir := pcb.page_directory; Changed(k,
      Creation(pcb, Proc(pid, Ready, START_FRAME, NoWait, false, dir), dir), k')
  {
  }

  /** And so is a successful destruction. */
  lemma DestroyIsChange(k: Records, k': Records, pid: int)
    requires WasDestroyed(k, k', pid)
    ensures var i := IndexOf(k.procs, pid, 0); Changed(k,
      Destruction(i, pid - PROCESS_START_PID, k.procs[i].directory), k')
  {
  }

  /** To the scheduler, destroying a process is the step that takes it out of the queue. */
  lemma DestroyIsKill(k: Records, k': Records, pid: int, wake: Wake)
    requires WasDestroyed(k, k', pid)
    ensures Step(k.procs, Kill(pid), wake, k'.procs)
  {
  }

  /** And creating one is the step that adds it, since its process id is new. */
  lemma CreateIsSpawn(k: Records, k': Records, pid: int, name: string, pcb: ProcessControlBlock?, wake: Wake)
    requires Corresponds(k) && k.procs != [] && WasCreated(k, k', pid, name, pcb)
    ensures Step(k.procs, Spawn(Proc(pid, Ready, START_FRAME, NoWait, false, pcb.page_directory)), wake, k'.procs)
  {
    forall q | q in k.procs
      ensures q.pid != pid
    {
      var i :| 0 <= i < |k.procs| && k.procs[i] == q;
      assert Placed(k, i);
    }
  }

  lemma DisownedFresh(k: Records, us: seq<Use>, d: PageDirectory)
    requires Corresponds(k) && d !in k.dirs
    requires us == k.frames || (HasRoom(k) && us == Mapped(k, d).frames)
    ensures Disowned(us, d) == k.frames
  {
    forall g | 0 <= g < |k.frames|
      ensures Disowned(us, d)[g] == k.frames[g]
    {
      assert Charged(k, g);
    }
  }

  lemma {:induction false} NoneTaken(slots: seq<Slot>)
    requires forall i :: 0 <= i < |slots| ==> slots[i] == null
    ensures Taken(slots) == 0
    decreases |slots|
  {
    if slots != [] { NoneTaken(slots[1..]); }
  }
}
