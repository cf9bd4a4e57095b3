/** The scheduler (src/kernel/c/process/scheduler.c): an intrusive doubly linked ready queue, whose methods
    change the sequence of processes as RoundRobin says. */
module Scheduler {
  import opened Paging
  import opened RoundRobin

  class ProcessControlBlock {
    var pid: int
    var state: ProcessState
    var name: string
    var frame: Frame
    var page_frame_used_count: nat
    var page_directory: PageDirectory?
    var wait: Wait       // notifier.predicate with notifier.closure
    var recall: bool     // notifier.recall

    constructor (frame: Frame)
      ensures pid == 0 && state == Inactive && name == "" && this.frame == frame && page_frame_used_count == 0
      ensures page_directory == null && wait == NoWait && !recall
    {
      pid, state, name, this.frame, page_frame_used_count := 0, Inactive, "", frame, 0;
      page_directory, wait, recall := null, NoWait, false;
    }
  }

  ghost function ProcOf(pcb: ProcessControlBlock): Proc
    reads pcb
  {
    Proc(pcb.pid, pcb.state, pcb.frame, pcb.wait, pcb.recall, pcb.page_directory)
  }

  /** `struct InterruptFrame` on the kernel stack: what the CPU returns to. */
  class InterruptFrame {
    var value: Frame

    constructor (value: Frame)
      ensures this.value == value
    {
      this.value := value;
    }
  }

  /** CR3, the page directory in use. */
  class ControlRegister {
    var directory: PageDirectory?

    constructor ()
      ensures directory == null
    {
      directory := null;
    }
  }

  class LinkedPCB {
    const pcb: ProcessControlBlock
    var next: LinkedPCB?
    var prev: LinkedPCB?

    constructor (pcb: ProcessControlBlock, prev: LinkedPCB?)
      ensures this.pcb == pcb && this.prev == prev && next == null
    {
      this.pcb, this.prev, next := pcb, prev, null;
    }
  }

  ghost function Pcbs(nodes: seq<LinkedPCB>): (ps: seq<ProcessControlBlock>)
    ensures |ps| == |nodes| && forall i {:trigger ps[i]} :: 0 <= i < |nodes| ==> ps[i] == nodes[i].pcb
  {
    seq(|nodes|, i requires 0 <= i < |nodes| => nodes[i].pcb)
  }

  ghost predicate Linked(q: seq<LinkedPCB>)
    reads q
  {
    forall i {:trigger LinkedAt(q, i)} :: 0 <= i < |q| ==> LinkedAt(q, i)
  }

  ghost predicate LinkedAt(q: seq<LinkedPCB>, i: nat)
    requires i < |q|
    reads q
  {
    q[i].next == (if i + 1 < |q| then q[i + 1] else null) && q[i].prev == if i > 0 then q[i - 1] else null
  }

  /** A node of the list has no other neighbours than those next to it. */
  lemma Neighbours(q: seq<LinkedPCB>, i: nat)
    requires i < |q| && Distinct(q)
    ensures forall k {:trigger q[k]} :: 0 <= k < |q| ==> (q[k] == q[i] <==> k == i)
    ensures forall k {:trigger q[k]} :: 0 <= k < |q| && i > 0 ==> (q[k] == q[i - 1] <==> k == i - 1)
    ensures forall k {:trigger q[k]} :: 0 <= k < |q| && i + 1 < |q| ==> (q[k] == q[i + 1] <==> k == i + 1)
  {
  }

  /** The list without node `i`, once its neighbours have been told about each other. */
  twostate lemma UnlinkedLinks(q: seq<LinkedPCB>, new i: nat)
    requires i < |q| && old(Linked(q))
    requires forall k {:trigger q[k]} :: 0 <= k < |q| ==>
      q[k].next == if i > 0 && k == i - 1 then old(q[i].next) else old(q[k].next)
    requires forall k {:trigger q[k]} :: 0 <= k < |q| ==>
      q[k].prev == if k == i + 1 then old(q[i].prev) else old(q[k].prev)
    ensures Linked(q[..i] + q[i + 1..])
  {
    var r := q[..i] + q[i + 1..];
    assert old(LinkedAt(q, i));
    forall k | 0 <= k < |r|
      ensures LinkedAt(r, k)
    {
      var j := if k < i then k else k + 1;
      assert r[k] == q[j] && old(LinkedAt(q, j));
    }
  }

  lemma UnlinkedEnds(q: seq<LinkedPCB>, i: nat)
    requires i < |q| && Distinct(q)
    ensures var r := q[..i] + q[i + 1..];
      Distinct(r) && (forall n <- r :: n in q)
      && (r != [] ==> r[0] == q[if i == 0 then 1 else 0] && r[|r| - 1] == q[if i == |q| - 1 then |q| - 2 else |q| - 1])
  {
    var r := q[..i] + q[i + 1..];
    assert forall k {:trigger r[k]} :: 0 <= k < |r| ==> r[k] == q[if k < i then k else k + 1];
  }

  /** The list with a node put at the back. */
  twostate lemma AppendedLinks(q: seq<LinkedPCB>, new node: LinkedPCB)
    requires old(Linked(q)) && node !in q
    requires forall k {:trigger q[k]} :: 0 <= k < |q| ==>
      q[k].next == (if k == |q| - 1 then node else old(q[k].next)) && q[k].prev == old(q[k].prev)
    requires node.next == null && node.prev == if q == [] then null else q[|q| - 1]
    ensures Linked(q + [node])
  {
    var r := q + [node];
    forall k | 0 <= k < |r|
      ensures LinkedAt(r, k)
    {
      if k < |q| {
        assert r[k] == q[k] && old(LinkedAt(q, k));
      }
    }
  }

  lemma PcbsAppended(ns: seq<LinkedPCB>, node: LinkedPCB)
    ensures Pcbs(ns + [node]) == Pcbs(ns) + [node.pcb]
  {
  }

  lemma AppendedDistinct<T>(s: seq<T>, x: T)
    requires Distinct(s) && x !in s
    ensures Distinct(s + [x])
  {
  }

  predicate Distinct<T(==)>(s: seq<T>) {
    forall i, j :: 0 <= i < j < |s| ==> s[i] != s[j]
  }

  class Scheduler {
    const cr3: ControlRegister
    var current_running: LinkedPCB?
    var queue_front: LinkedPCB?
    var queue_back: LinkedPCB?
    ghost var queue: seq<LinkedPCB>

    /** The nodes in use: the current one, which is in no list, and those of the queue. */
    ghost function Nodes(): seq<LinkedPCB>
      reads this
    {
      (if current_running == null then [] else [current_running]) + queue
    }

    /** Forward and backward links represent the same sequence, which holds no node twice nor the current one. */
    ghost predicate Valid()
      reads this, queue
    {
      Listed() && current_running !in queue
    }

    ghost predicate Listed()
      reads this, queue
    {
      && Distinct(queue)
      && queue_front == (if queue == [] then null else queue[0])
      && queue_back == (if queue == [] then null else queue[|queue| - 1])
      && Linked(queue)
    }

    ghost function Order(): seq<ProcessControlBlock>
      reads this
    {
      Pcbs(Nodes())
    }

    ghost function Procs(): (ps: seq<Proc>)
      reads this, Order()
      ensures |ps| == |Order()| && forall i {:trigger ps[i]} :: 0 <= i < |ps| ==> ps[i] == ProcOf(Order()[i])
    {
      seq(|Order()|, i requires 0 <= i < |Order()| reads this, Order() => ProcOf(Order()[i]))
    }

    constructor (cr3: ControlRegister)
      ensures Valid() && current_running == null && queue == [] && this.cr3 == cr3
    {
      this.cr3 := cr3;
      current_running, queue_front, queue_back, queue := null, null, null, [];
    }

    method Add(pcb: ProcessControlBlock)
      requires Valid()
      modifies this`queue, this`queue_front, this`queue_back, queue
      ensures Valid() && current_running == old(current_running)
      ensures |queue| == |old(queue)| + 1 && queue[..|old(queue)|] == old(queue) && fresh(queue[|old(queue)|])
      ensures Order() == old(Order()) + [pcb]
    {
      ghost var q := queue;
      hide Distinct, Linked, Pcbs;
      if q != [] { Neighbours(q, |q| - 1); }
      var node := new LinkedPCB(pcb, queue_back);
      if queue_back != null {
        queue_back.next := node;
      }
      queue_back := node;
      if queue_front == null {
        queue_front := node;
      }
      queue := q + [node];
      AppendedLinks(q, node);
      AppendedDistinct(q, node);
      assert Nodes() == old(Nodes()) + [node];
      PcbsAppended(old(Nodes()), node);
    }

    /** Takes the first node of this process out of the queue; the current process stays. */
    method Remove(pcb: ProcessControlBlock)
      requires Valid() && current_running != null
      modifies this`queue, this`queue_front, this`queue_back, queue
      ensures Valid() && current_running == old(current_running)
      ensures queue == if current_running.pcb == pcb then old(queue) else Unlinked(old(queue), pcb)
    {
      if current_running.pcb == pcb { return; }
      ghost var i: nat := 0;
      var current := queue_front;
      while current != null
        invariant unchanged(this) && unchanged(queue)
        invariant i <= |queue| && current == if i < |queue| then queue[i] else null
        invariant forall j :: 0 <= j < i ==> queue[j].pcb != pcb
        decreases |queue| - i
      {
        if current.pcb == pcb {
          FirstIs(queue, pcb, i);
          Unlink(current, i);
          return;
        }
        assert LinkedAt(queue, i);
        current := current.next;
        i := i + 1;
      }
      FirstIs(queue, pcb, i);
    }

    /** Lines 42-51. */
    method Unlink(current: LinkedPCB, ghost i: nat)
      requires Valid() && i < |queue| && queue[i] == current
      modifies this`queue, this`queue_front, this`queue_back, queue
      ensures Valid() && current_running == old(current_running)
      ensures queue == old(queue)[..i] + old(queue)[i + 1..]
    {
      ghost var q := queue;
      hide Distinct;
      Neighbours(q, i);
      assert LinkedAt(q, i);
      if current.prev != null {
        current.prev.next := current.next;
      }
      if current.next != null {
        current.next.prev := current.prev;
      }
      if current == queue_front {
        queue_front := current.next;
      }
      if current == queue_back {
        queue_back := current.prev;
      }
      queue := q[..i] + q[i + 1..];
      UnlinkedLinks(q, i);
      UnlinkedEnds(q, i);
    }

    /** Rotates the current process and the queue by one. */
    method SwitchNext()
      requires Valid() && (queue != [] ==> current_running != null)
      modifies this`current_running, this`queue, this`queue_front, this`queue_back, current_running, queue
      ensures Valid() && (old(Nodes()) == [] <==> Nodes() == [])
      ensures Nodes() == if old(queue) == [] then old(Nodes()) else Rotate(old(Nodes()), 1)
      ensures current_running == null <==> old(current_running) == null
    {
      if queue_front == null && queue_back == null { return; }
      ghost var nodes := Nodes();
      PutBack();
      TakeFront();
      assert Nodes() == Rotate(nodes, 1);
    }

    /** Lines 76-80. */
    method PutBack()
      requires Valid() && queue != [] && current_running != null
      modifies this`queue, this`queue_back, current_running, queue
      ensures Listed() && current_running == old(current_running) && queue == old(queue) + [current_running]
    {
      ghost var q := queue;
      Neighbours(q, |q| - 1);
      current_running.prev := queue_back;
      current_running.next := null;
      queue_back.next := current_running;
      queue_back := current_running;
      queue := q + [current_running];
      AppendedLinks(q, current_running);
    }

    /** Lines 82-89, and 169-175 when the scheduler starts. */
    method TakeFront()
      requires Listed() && queue != []
      modifies this`queue, this`queue_front, this`queue_back, this`current_running, queue
      ensures Valid() && current_running == old(queue)[0] && queue == old(queue)[1..]
    {
      ghost var q := queue;
      hide Distinct;
      Neighbours(q, 0);
      assert LinkedAt(q, 0);
      current_running := queue_front;
      queue_front := current_running.next;
      if queue_front != null {
        queue_front.prev := null;
      }
      if current_running == queue_back {
        queue_back := current_running.next;
      }
      queue := q[1..];
      current_running.next := null;
      TailLinks(q);
      TailEnds(q);
    }

    /** No process has two nodes. */
    ghost predicate Orderly()
      reads this, queue
    {
      Valid() && current_running != null && Distinct(Order())
    }

    /** One more switch, seen from the order `ns` the rotation began with. */
    method Advance(ghost ns: seq<LinkedPCB>, ghost j: nat)
      requires Valid() && current_running != null && j < |ns| && Nodes() == Rotate(ns, j)
      modifies this`current_running, this`queue, this`queue_front, this`queue_back, ns
      ensures Valid() && current_running == ns[if j + 1 == |ns| then 0 else j + 1] && Nodes() == Rotate(ns, j + 1)
    {
      RotateAt(ns, j, 0);
      forall k | 0 <= k < |queue|
        ensures queue[k] in ns
      {
        RotateAt(ns, j, k + 1);
        assert Nodes()[k + 1] == queue[k];
      }
      SwitchNext();
      assert Rotate(Rotate(ns, j), 1) == Rotate(ns, j + 1);
      RotateWhole(ns);
      assert Nodes()[0] == current_running;
    }

    lemma OrderlyRuns()
      requires Orderly()
      ensures current_running != null && Procs() != [] && Procs()[0] == ProcOf(current_running.pcb)
    {
      assert Order()[0] == current_running.pcb;
    }

    /** Lines 102-115: a waiting process whose predicate is absent or holds becomes Ready. */
    method Notify(next_pcb: ProcessControlBlock, halts: nat, wake: Wake) returns (notified: bool, recall: bool)
      modifies next_pcb
      ensures notified == (old(next_pcb.state) == Waiting && Eligible(old(ProcOf(next_pcb)), halts, wake))
      ensures recall == (notified && old(next_pcb.recall))
      ensures ProcOf(next_pcb) == if notified then Alerted(old(ProcOf(next_pcb))) else old(ProcOf(next_pcb))
    {
      notified, recall := false, false;
      if next_pcb.state == Waiting {
        if next_pcb.wait == NoWait || wake(halts, next_pcb.wait) {
          notified := true;
          recall := next_pcb.recall;
          next_pcb.wait := NoWait;
          next_pcb.recall := false;
          next_pcb.state := Ready;
        }
      }
    }

    /** Lines 99-115: switch once and look at the new current process. */
    method Look(ghost ns: seq<LinkedPCB>, ghost ps: seq<Proc>, ghost j: nat, halts: nat, wake: Wake)
      returns (next_pcb: ProcessControlBlock, notified: bool, recall: bool)
      requires Valid() && current_running != null && j < |ns| && Nodes() == Rotate(ns, j)
      requires Distinct(Pcbs(ns)) && Shows(ns, ps)
      modifies this`current_running, this`queue, this`queue_front, this`queue_back, ns, Pcbs(ns)
      ensures Valid() && Nodes() == Rotate(ns, j + 1)
      ensures var k := if j + 1 == |ns| then 0 else j + 1;
        && current_running == ns[k] && next_pcb == ns[k].pcb
        && (next_pcb.state == Ready <==> Eligible(ps[k], halts, wake))
        && Shows(ns, if Eligible(ps[k], halts, wake) then ps[k := Alerted(ps[k])] else ps)
        && notified == (ps[k].state == Waiting && Eligible(ps[k], halts, wake)) && recall == (notified && ps[k].recall)
    {
      Advance(ns, j);
      next_pcb := current_running.pcb;
      ghost var k := if j + 1 == |ns| then 0 else j + 1;
      ShowsAt(ns, ps, k);
      hide Distinct, Shows, Rotate, Nodes, Pcbs;
      label before:
      notified, recall := Notify(next_pcb, halts, wake);
      ShowsUpdate@before(ns, ps, k, ProcOf(next_pcb));
      assert ps[k := ps[k]] == ps;
    }

    lemma Begin(ns: seq<LinkedPCB>, ps: seq<Proc>, wake: Wake, t: nat, i: nat)
      requires Nodes() == ns && current_running != null
      requires Distinct(Pcbs(ns)) && Shows(ns, ps) && Picks(ps, wake, t, i)
      ensures |ns| == |ps| && ns != [] && ns[0] == current_running && Rotate(ns, 0) == ns
      ensures forall l {:trigger ns[l]} :: 0 < l < |ns| ==> ns[l].pcb != ns[0].pcb
      ensures Before(0, 0, t, i) && 1 <= i <= |ns|
    {
      RotateWhole(ns);
      assert Pcbs(ns)[0] == ns[0].pcb;
      assert forall l {:trigger ns[l]} :: 0 < l < |ns| ==> Pcbs(ns)[l] != ns[0].pcb;
    }

    /** Lines 93-125: rotate until a process may run. `t` and `i` say which candidate the search will find;
        without one the source halts for ever. */
    method Search(wake: Wake, ghost ns: seq<LinkedPCB>, ghost ps: seq<Proc>, ghost t: nat, ghost i: nat)
      returns (next_pcb: ProcessControlBlock, notified: bool, recall: bool)
      requires Valid() && Nodes() == ns && current_running != null
      requires Distinct(Pcbs(ns)) && Shows(ns, ps) && Picks(ps, wake, t, i)
      modifies this`current_running, this`queue, this`queue_front, this`queue_back, ns, Pcbs(ns)
      ensures Valid() && Nodes() == Rotate(ns, i)
      ensures var k := if i == |ns| then 0 else i;
        && current_running == ns[k] && next_pcb == ns[k].pcb && Shows(ns, ps[k := Alerted(ps[k])])
        && notified == (ps[k].state == Waiting) && recall == (notified && ps[k].recall)
    {
      var prev_pcb := current_running.pcb;
      var halts := 0;
      ghost var j: nat := 0;
      hide *;
      Begin(ns, ps, wake, t, i);
      while true
        invariant Valid() && current_running != null && 0 <= j < |ns| && Nodes() == Rotate(ns, j)
        invariant Shows(ns, ps)
        invariant halts <= t && Before(halts, j, t, i)
        decreases t - halts, |ns| - j
      {
        next_pcb, notified, recall := Look(ns, ps, j, halts, wake);
        StillAhead(ps, wake, t, i, halts, j);
        j := j + 1;
        if next_pcb.state == Ready {
          return;
        }
        if next_pcb == prev_pcb {
          halts := halts + 1;
          RotateWhole(ns);
          j := 0;
        }
      }
    }

    /** Lines 92-133. `recalled` says that the syscall the process was halted in runs again on the frame. */
    method SwitchNextWithNotifier(frame: InterruptFrame, wake: Wake, ghost t: nat, ghost i: nat)
      returns (recalled: bool)
      requires Orderly() && Picks(Procs(), wake, t, i)
      modifies this, cr3, Nodes(), Order(), frame
      ensures Orderly() && Procs() == Resumed(old(Procs()), i) && Nodes() == Rotate(old(Nodes()), i)
      ensures Order() == Rotate(old(Order()), i)
      ensures frame.value == Procs()[0].frame && cr3.directory == Procs()[0].directory
      ensures recalled == Recalls(old(Procs()), i)
    {
      ghost var ns, ps, k := Nodes(), Procs(), if i == |Procs()| then 0 else i;
      assert Order() == Pcbs(ns) && Distinct(Pcbs(ns)) && Valid() && Shows(ns, ps) && 1 <= i <= |ns| == |ps|
        && k < |ps|;
      PcbsRotated(ns, i);
      hide *;
      var next_pcb, notified, recall := Search(wake, ns, ps, t, i);
      Resume(frame, next_pcb, ns, ps, k);
      Switched(ns, ps, i);
      recalled := notified && recall;
    }

    lemma Switched(ns: seq<LinkedPCB>, ps: seq<Proc>, i: nat)
      requires Valid() && current_running != null && 1 <= i <= |ns| == |ps| && Nodes() == Rotate(ns, i)
      requires var k := if i == |ps| then 0 else i; Distinct(Pcbs(ns)) && Shows(ns, ps[k := Woken(ps[k])])
      ensures Orderly() && Procs() == Resumed(ps, i) && Procs() != [] && Order() == Pcbs(Rotate(ns, i))
      ensures var p := ps[if i == |ps| then 0 else i];
        Procs()[0].frame == p.frame && Procs()[0].directory == p.directory
    {
      var k := if i == |ps| then 0 else i;
      WokenFirst(ps, i);
      ShowsRotated(ns, ps[k := Woken(ps[k])], i);
      RotatedDistinct(ns, i);
      RotateAt(ps, i, 0);
      RotateWhole(ps);
    }

    /** Lines 127-129. */
    method Resume(frame: InterruptFrame, next_pcb: ProcessControlBlock, ghost ns: seq<LinkedPCB>, ghost ps: seq<Proc>,
                  ghost k: nat)
      requires k < |ns| == |ps| && Distinct(Pcbs(ns)) && next_pcb == ns[k].pcb && Shows(ns, ps[k := Alerted(ps[k])])
      modifies cr3, next_pcb, frame
      ensures Shows(ns, ps[k := Woken(ps[k])]) && frame.value == ps[k].frame && cr3.directory == ps[k].directory
    {
      assert ProcOf(Pcbs(ns)[k]) == Alerted(ps[k]);
      assert forall l {:trigger ns[l]} :: 0 <= l < |ns| && l != k ==> Pcbs(ns)[l] != Pcbs(ns)[k];
      cr3.directory := next_pcb.page_directory;
      frame.value := next_pcb.frame;
      next_pcb.state := Running;
    }

    /** The current process is preempted and the first one that may run takes over; before the scheduler has
        started, nothing happens. */
    method HandleTimerInterrupt(frame: InterruptFrame, wake: Wake) returns (recalled: bool, ghost i: nat)
      requires current_running == null || Orderly()
      modifies this, cr3, Nodes(), Order(), frame
      ensures i <= |old(Nodes())| && Nodes() == Rotate(old(Nodes()), i) && Order() == Rotate(old(Order()), i)
      ensures AllAlike(Rotate(old(Procs()), i), Procs())
      ensures forall n <- Nodes() :: n in old(Nodes())
      ensures forall p <- Order() :: p in old(Order())
      ensures old(current_running) == null ==>
        current_running == null && Valid() == old(Valid()) && Order() == old(Order()) && Procs() == old(Procs())
      ensures old(current_running) == null ==>
        frame.value == old(frame.value) && cr3.directory == old(cr3.directory) && !recalled
      ensures old(current_running) != null ==> Orderly() && Step(old(Procs()), Tick(old(frame.value)), wake, Procs())
      ensures old(current_running) != null && old(current_running.pcb.state) != Waiting ==>
        frame.value == Procs()[0].frame && cr3.directory == Procs()[0].directory
        && TakesOver(Preempted(old(Procs()), old(frame.value)), wake, 0, i, Procs(), recalled)
      ensures old(current_running) != null && old(current_running.pcb.state) == Waiting ==>
        frame.value == old(frame.value) && cr3.directory == old(cr3.directory) && !recalled
    {
      recalled, i := false, 0;
      RotateWhole(Nodes());
      RotateWhole(Order());
      RotateWhole(Procs());
      if current_running == null { return; }
      var prev_pcb := current_running.pcb;
      if prev_pcb.state == Waiting { return; }
      ghost var ps := Procs();
      assert Order()[0] == prev_pcb;
      Store(frame, Ready, prev_pcb.wait, prev_pcb.recall);
      i := FirstReady(Procs(), wake);
      hide *;
      recalled := SwitchNextWithNotifier(frame, wake, 0, i);
      TickStep(ps, old(frame.value), wake, i, Procs());
      RotatedMembers(old(Nodes()), i);
      RotatedMembers(old(Order()), i);
      PreemptedAlike(ps, old(frame.value));
      TakesOverRotates(ps, Preempted(ps, old(frame.value)), wake, 0, i, Procs(), recalled);
    }

    /** Save the frame of the current process and set its state and notifier. */
    method Store(frame: InterruptFrame, state: ProcessState, wait: Wait, recall: bool)
      requires Orderly()
      modifies current_running.pcb
      ensures Orderly() && current_running.pcb.pid == old(current_running.pcb.pid) && Order() == old(Order())
      ensures Procs() == old(Procs())[0 := old(Procs())[0].(frame := frame.value, state := state, wait := wait,
        recall := recall)]
    {
      var pcb := current_running.pcb;
      ghost var os := Order();
      assert forall k {:trigger os[k]} :: 0 < k < |os| ==> os[k] != os[0];
      pcb.wait := wait;
      pcb.recall := recall;
      pcb.state := state;
      pcb.frame := frame.value;
      assert Order() == os;
    }

    /** The current process halts in a syscall until `wait` holds. It is looked up through the table of processes.
        `t` and `i` say whom the predicates will let run, now or after some interrupts. */
    method HaltCurrentProcess(frame: InterruptFrame, wait: Wait, recall: bool, wake: Wake,
                              process_pids: array<ProcessControlBlock?>, ghost t: nat, ghost i: nat)
      returns (recalled: bool, ghost places: nat)
      requires Orderly()
      requires var idx := current_running.pcb.pid - 1;
        0 <= idx < process_pids.Length && process_pids[idx] == current_running.pcb
      requires frame.value.int_number == SYSCALL_INT ==> Picks(Halted(Procs(), frame.value, wait, recall), wake, t, i)
      modifies this, cr3, Nodes(), Order(), frame
      ensures Orderly() && Step(old(Procs()), Sleep(old(frame.value), wait, recall), wake, Procs())
      ensures places <= |old(Nodes())| && Nodes() == Rotate(old(Nodes()), places)
      ensures Order() == Rotate(old(Order()), places)
      ensures AllAlike(Rotate(old(Procs()), places), Procs())
      ensures forall n <- Nodes() :: n in old(Nodes())
      ensures forall p <- Order() :: p in old(Order())
      ensures old(frame.value).int_number != SYSCALL_INT ==> places == 0 && Procs() == old(Procs())
      ensures old(frame.value).int_number == SYSCALL_INT ==>
        frame.value == Procs()[0].frame && cr3.directory == Procs()[0].directory
        && TakesOver(Halted(old(Procs()), old(frame.value), wait, recall), wake, t, i, Procs(), recalled)
      ensures old(frame.value).int_number != SYSCALL_INT ==>
        frame.value == old(frame.value) && cr3.directory == old(cr3.directory) && !recalled
    {
      recalled, places := false, 0;
      if frame.value.int_number != SYSCALL_INT {
        hide *;
        RotateWhole(Nodes());
        RotateWhole(Order());
        RotateWhole(Procs());
        return;
      }
      places := i;
      var pid := CurrentRunningPid();
      var pcb := process_pids[pid - 1];
      ghost var ps := Procs();
      Store(frame, Waiting, wait, recall);
      hide *;
      recalled := SwitchNextWithNotifier(frame, wake, t, i);
      SleepStep(ps, old(frame.value), wait, recall, wake, t, i, Procs());
      RotatedMembers(old(Nodes()), i);
      RotatedMembers(old(Order()), i);
      HaltedAlike(ps, old(frame.value), wait, recall);
      TakesOverRotates(ps, Halted(ps, old(frame.value), wait, recall), wake, t, i, Procs(), recalled);
    }

    method CurrentRunningPid() returns (pid: int)
      ensures pid == if current_running == null then -1 else current_running.pcb.pid
    {
      if current_running == null { return -1; }
      pid := current_running.pcb.pid;
    }

    /** The queue part of scheduler_init: the front of the queue becomes current, and the order stays. The frame
        returned is the one user mode starts with. */
    method Init() returns (frame: Frame)
      requires Valid() && (current_running == null ==> queue != [])
      modifies this, cr3, queue
      ensures Valid() && current_running != null && Nodes() == old(Nodes()) && Procs() == old(Procs())
      ensures frame == Procs()[0].frame
      ensures old(current_running) == null ==> cr3.directory == Procs()[0].directory
    {
      if current_running == null {
        ghost var q := queue;
        hide Linked, Distinct, Procs;
        TakeFront();
        assert Nodes() == q;
        cr3.directory := current_running.pcb.page_directory;
      }
      frame := current_running.pcb.frame;
      SameProcs();
    }

    twostate lemma SameProcs()
      requires Nodes() == old(Nodes()) && current_running != null
      requires forall k {:trigger old(Order())[k]} :: 0 <= k < |old(Order())| ==>
        ProcOf(old(Order())[k]) == old(ProcOf(Order()[k]))
      ensures Procs() == old(Procs()) && Procs() != [] && Procs()[0] == ProcOf(current_running.pcb)
    {
      var os := old(Order());
      assert Order() == os && os[0] == current_running.pcb;
    }

    /** Remove, seen in the order of the processes: the one at `i` is gone. */
    method RemoveAt(pcb: ProcessControlBlock, ghost i: nat)
      requires Valid() && current_running != null && Distinct(Order()) && 0 < i < |Order()| && Order()[i] == pcb
      modifies this`queue, this`queue_front, this`queue_back, queue
      ensures Valid() && current_running == old(current_running)
      ensures Order() == old(Order())[..i] + old(Order())[i + 1..]
      ensures Procs() == old(Procs())[..i] + old(Procs())[i + 1..]
    {
      UnlinkedOrder(current_running, queue, pcb, i);
      hide Unlinked, Pcbs;
      Remove(pcb);
    }
  }

  /** Nodes without that of process `i`. */
  lemma UnlinkedOrder(node: LinkedPCB, q: seq<LinkedPCB>, pcb: ProcessControlBlock, i: nat)
    requires Distinct(Pcbs([node] + q)) && 0 < i <= |q| && Pcbs([node] + q)[i] == pcb
    ensures node.pcb != pcb
    ensures Pcbs([node] + Unlinked(q, pcb)) == Pcbs([node] + q)[..i] + Pcbs([node] + q)[i + 1..]
  {
    var ns, os := [node] + q, Pcbs([node] + q);
    hide Distinct;
    OrderDistinct(ns, i);
    assert ns[0] == node && ns[i].pcb == pcb;
    assert forall j {:trigger q[j]} :: 0 <= j < |q| ==> q[j] == ns[j + 1];
    FirstIs(q, pcb, i - 1);
    ConsCut(node, q, i);
    PcbsCut(ns, i);
  }

  lemma ConsCut<T>(x: T, s: seq<T>, i: nat)
    requires 0 < i <= |s|
    ensures [x] + (s[..i - 1] + s[i..]) == ([x] + s)[..i] + ([x] + s)[i + 1..]
  {
  }

  lemma OrderDistinct(ns: seq<LinkedPCB>, i: nat)
    requires Distinct(Pcbs(ns)) && i < |ns|
    ensures forall j {:trigger ns[j]} :: 0 <= j < |ns| && j != i ==> ns[j].pcb != ns[i].pcb
  {
    assert forall j {:trigger ns[j]} :: 0 <= j < |ns| && j != i ==> Pcbs(ns)[j] != Pcbs(ns)[i];
  }

  lemma PcbsCut(ns: seq<LinkedPCB>, i: nat)
    requires i < |ns|
    ensures Pcbs(ns[..i] + ns[i + 1..]) == Pcbs(ns)[..i] + Pcbs(ns)[i + 1..]
  {
  }

  /** The process behind each node. */
  ghost predicate Shows(ns: seq<LinkedPCB>, ps: seq<Proc>)
    reads Pcbs(ns)
  {
    |ns| == |ps| && forall l {:trigger ns[l]} {:trigger ps[l]} :: 0 <= l < |ns| ==>
      Pcbs(ns)[l] == ns[l].pcb && ProcOf(Pcbs(ns)[l]) == ps[l]
  }

  lemma ShowsAt(ns: seq<LinkedPCB>, ps: seq<Proc>, k: nat)
    requires Shows(ns, ps) && k < |ns|
    ensures |ns| == |ps| && Pcbs(ns)[k] == ns[k].pcb && ProcOf(ns[k].pcb) == ps[k]
    ensures forall l {:trigger ns[l]} :: 0 <= l < |ns| ==> ProcOf(ns[l].pcb) == ps[l]
  {
  }

  twostate lemma ShowsUpdate(ns: seq<LinkedPCB>, new ps: seq<Proc>, new k: nat, new q: Proc)
    requires k < |ns| == |ps| && forall l {:trigger ns[l]} :: 0 <= l < |ns| ==> old(ProcOf(ns[l].pcb)) == ps[l]
    requires Distinct(Pcbs(ns)) && ProcOf(ns[k].pcb) == q
    requires forall p <- Pcbs(ns) :: p != ns[k].pcb ==> ProcOf(p) == old(ProcOf(p))
    ensures Shows(ns, ps[k := q])
  {
    var os := Pcbs(ns);
    forall l | 0 <= l < |ns|
      ensures ProcOf(os[l]) == ps[k := q][l]
    {
      assert os[l] == ns[l].pcb;
      assert l != k ==> os[l] != os[k] && os[l] in os;
    }
  }

  /** The candidate the search finds after `t` halts takes over, and whether its syscall runs again. */
  ghost predicate TakesOver(ps: seq<Proc>, wake: Wake, t: nat, i: nat, qs: seq<Proc>, recalled: bool) {
    Picks(ps, wake, t, i) && qs == Resumed(ps, i) && recalled == Recalls(ps, i)
  }

  /** Whoever takes over, the processes are the same ones, rotated. */
  lemma TakesOverRotates(ps: seq<Proc>, mid: seq<Proc>, wake: Wake, t: nat, i: nat, qs: seq<Proc>, recalled: bool)
    requires TakesOver(mid, wake, t, i, qs, recalled) && AllAlike(ps, mid)
    ensures i <= |ps| && AllAlike(Rotate(ps, i), qs)
  {
    forall j | 0 <= j < |ps|
      ensures Alike(Rotate(ps, i)[j], qs[j])
    {
      RotateAt(ps, i, j);
      RotateAt(mid, i, j);
      var l := if j + i < |ps| then j + i else j + i - |ps|;
      assert Alike(ps[l], mid[l]);
    }
  }

  lemma PreemptedAlike(ps: seq<Proc>, f: Frame)
    requires ps != []
    ensures AllAlike(ps, Preempted(ps, f))
  {
  }

  lemma HaltedAlike(ps: seq<Proc>, f: Frame, w: Wait, r: bool)
    requires ps != []
    ensures AllAlike(ps, Halted(ps, f, w, r))
  {
  }

  lemma TickStep(ps: seq<Proc>, f: Frame, wake: Wake, i: nat, qs: seq<Proc>)
    requires ps != [] && ps[0].state != Waiting && Picks(Preempted(ps, f), wake, 0, i)
    requires qs == Resumed(Preempted(ps, f), i)
    ensures Step(ps, Tick(f), wake, qs)
    ensures forall recalled :: recalled == Recalls(Preempted(ps, f), i) ==>
      TakesOver(Preempted(ps, f), wake, 0, i, qs, recalled)
  {
  }

  lemma SleepStep(ps: seq<Proc>, f: Frame, w: Wait, r: bool, wake: Wake, t: nat, i: nat, qs: seq<Proc>)
    requires ps != [] && f.int_number == SYSCALL_INT && Picks(Halted(ps, f, w, r), wake, t, i)
    requires qs == Resumed(Halted(ps, f, w, r), i)
    ensures Step(ps, Sleep(f, w, r), wake, qs)
    ensures forall recalled :: recalled == Recalls(Halted(ps, f, w, r), i) ==>
      TakesOver(Halted(ps, f, w, r), wake, t, i, qs, recalled)
  {
  }

  lemma WokenFirst(ps: seq<Proc>, i: nat)
    requires 1 <= i <= |ps|
    ensures var k := if i == |ps| then 0 else i;
      Resumed(ps, i) == Rotate(ps[k := Woken(ps[k])], i)
  {
  }

  /** Nodes in rotated order show the processes in rotated order. */
  lemma ShowsRotated(ns: seq<LinkedPCB>, ps: seq<Proc>, i: nat)
    requires Shows(ns, ps) && i <= |ns|
    ensures Shows(Rotate(ns, i), Rotate(ps, i))
  {
    forall l | 0 <= l < |ns|
      ensures ProcOf(Pcbs(Rotate(ns, i))[l]) == Rotate(ps, i)[l]
    {
      RotateAt(ns, i, l);
      RotateAt(ps, i, l);
      assert ProcOf(Pcbs(ns)[if l + i < |ns| then l + i else l + i - |ns|]) ==
        ps[if l + i < |ns| then l + i else l + i - |ns|];
    }
  }

  lemma RotatedMembers<T>(s: seq<T>, i: nat)
    requires i <= |s|
    ensures forall x <- Rotate(s, i) :: x in s
  {
  }

  lemma PcbsRotated(ns: seq<LinkedPCB>, i: nat)
    requires i <= |ns|
    ensures Pcbs(Rotate(ns, i)) == Rotate(Pcbs(ns), i)
  {
  }

  lemma RotatedDistinct(ns: seq<LinkedPCB>, i: nat)
    requires Distinct(Pcbs(ns)) && i <= |ns|
    ensures Distinct(Pcbs(Rotate(ns, i)))
  {
    var r := Rotate(ns, i);
    forall j, k | 0 <= j < k < |r|
      ensures Pcbs(r)[j] != Pcbs(r)[k]
    {
      RotateAt(ns, i, j);
      RotateAt(ns, i, k);
      var a, b := if j + i < |ns| then j + i else j + i - |ns|, if k + i < |ns| then k + i else k + i - |ns|;
      assert Pcbs(ns)[a] != Pcbs(ns)[b];
    }
  }

  function Alerted(p: Proc): Proc {
    if p.state == Waiting then p.(state := Ready, wait := NoWait, recall := false) else p
  }

  /** The list without its front. */
  twostate lemma TailLinks(q: seq<LinkedPCB>)
    requires q != [] && old(Linked(q))
    requires forall k {:trigger q[k]} :: 0 < k < |q| ==>
      q[k].next == old(q[k].next) && q[k].prev == if k == 1 then null else old(q[k].prev)
    ensures Linked(q[1..])
  {
    forall k | 0 <= k < |q| - 1
      ensures LinkedAt(q[1..], k)
    {
      assert q[1..][k] == q[k + 1] && old(LinkedAt(q, k + 1));
    }
  }

  lemma TailEnds(q: seq<LinkedPCB>)
    requires q != [] && Distinct(q)
    ensures Distinct(q[1..]) && q[0] !in q[1..] && (|q| > 1 ==> q[|q| - 1] != q[0])
  {
  }

  function Unlinked(q: seq<LinkedPCB>, pcb: ProcessControlBlock): seq<LinkedPCB> {
    var i := First(q, pcb, 0);
    if i == |q| then q else q[..i] + q[i + 1..]
  }

  function First(q: seq<LinkedPCB>, pcb: ProcessControlBlock, i: nat): (r: nat)
    requires i <= |q|
    ensures i <= r <= |q| && (r < |q| ==> q[r].pcb == pcb) && forall j :: i <= j < r ==> q[j].pcb != pcb
    decreases |q| - i
  {
    if i == |q| || q[i].pcb == pcb then i else First(q, pcb, i + 1)
  }

  lemma FirstIs(q: seq<LinkedPCB>, pcb: ProcessControlBlock, i: nat)
    requires i <= |q| && (forall j :: 0 <= j < i ==> q[j].pcb != pcb) && (i < |q| ==> q[i].pcb == pcb)
    ensures First(q, pcb, 0) == i
  {
  }
}
