/** What the scheduler (src/kernel/c/process/scheduler.c) means: one sequence of processes, the current one
    first and the ready queue behind it, and the steps that change it. */
module RoundRobin {
  import opened Paging

  const SYSCALL_INT := 0x30

  datatype ProcessState = Inactive | Running | Ready | Waiting

  datatype Frame = Frame(
    edi: int, esi: int, ebp: int, esp: int, ebx: int, edx: int, ecx: int, eax: int,
    gs: int, fs: int, es: int, ds: int, int_number: int,
    error_code: int, eip: int, cs: int, eflags: int, old_esp: int, ss: int)

  /** A predicate with its closure; `NoWait` is the NULL predicate. */
  datatype Wait = NoWait | Until(predicate_id: nat, closure: nat)

  datatype Proc = Proc(pid: int, state: ProcessState, frame: Frame, wait: Wait, recall: bool, directory: PageDirectory?)

  /** What a predicate answers after so many halts: predicates only change while the machine waits for an
      interrupt, since interrupts are off otherwise. */
  type Wake = (nat, Wait) -> bool

  predicate Eligible(p: Proc, t: nat, wake: Wake) {
    p.state == Ready || (p.state == Waiting && (p.wait == NoWait || wake(t, p.wait)))
  }

  // ---------- rotation ----------

  function Rotate<T>(s: seq<T>, k: nat): seq<T>
    requires k <= |s|
  {
    s[k..] + s[..k]
  }

  /** `k` calls of switch_next. */
  function Rotations<T>(s: seq<T>, k: nat): seq<T>
    requires s != []
    decreases k
  {
    if k == 0 then s else Rotations(Rotate(s, 1), k - 1)
  }

  lemma {:induction false} RotationsIs<T>(s: seq<T>, k: nat)
    requires s != [] && k <= |s|
    ensures Rotations(s, k) == Rotate(s, k)
    decreases k
  {
    if k > 0 {
      var r := Rotate(s, 1);
      RotationsIs(r, k - 1);
      assert Rotate(r, k - 1) == Rotate(s, k);
    } else {
      assert Rotate(s, 0) == s;
    }
  }

  lemma RotateWhole<T>(s: seq<T>)
    ensures Rotate(s, |s|) == s && Rotate(s, 0) == s
  {
  }

  /** With n processes, n switches restore the order and each process was current exactly once on the way. */
  lemma FullRound<T>(s: seq<T>, i: nat)
    requires s != [] && (forall j, k :: 0 <= j < k < |s| ==> s[j] != s[k]) && i < |s|
    ensures Rotations(s, |s|) == s
    ensures Rotations(s, i) != [] && Rotations(s, i)[0] == s[i]
    ensures forall k: nat :: k < |s| && Rotations(s, k) != [] && Rotations(s, k)[0] == s[i] ==> k == i
  {
    RotationsIs(s, |s|);
    forall k: nat | k < |s|
      ensures Rotations(s, k) != [] && Rotations(s, k)[0] == s[k]
    {
      RotationsIs(s, k);
    }
  }

  // ---------- picking ----------

  /** Whether the i-th process looked at in round `t` may run; the n-th one is the process the search began with. */
  predicate Candidate(ps: seq<Proc>, wake: Wake, t: nat, i: nat) {
    1 <= i <= |ps| && Eligible(ps[if i == |ps| then 0 else i], t, wake)
  }

  predicate Before(t: nat, i: nat, t': nat, i': nat) { t < t' || (t == t' && i < i') }

  /** The search takes the first candidate in round-robin order. */
  ghost predicate Picks(ps: seq<Proc>, wake: Wake, t: nat, i: nat) {
    && Candidate(ps, wake, t, i)
    && forall u, j {:trigger Candidate(ps, wake, u, j)} :: Before(u, j, t, i) ==> !Candidate(ps, wake, u, j)
  }

  lemma PicksOne(ps: seq<Proc>, wake: Wake, t: nat, i: nat, t': nat, i': nat)
    requires Picks(ps, wake, t, i) && Picks(ps, wake, t', i')
    ensures t == t' && i == i'
  {
    assert Before(t, i, t', i') ==> !Candidate(ps, wake, t, i);
    assert Before(t', i', t, i) ==> !Candidate(ps, wake, t', i');
  }

  /** A search still in front of its pick either looks at it next or stays in front of it. */
  lemma StillAhead(ps: seq<Proc>, wake: Wake, t: nat, i: nat, u: nat, j: nat)
    requires Picks(ps, wake, t, i) && Before(u, j, t, i) && j < |ps| && u <= t
    ensures if Eligible(ps[if j + 1 == |ps| then 0 else j + 1], u, wake) then u == t && j + 1 == i
            else if j + 1 == |ps| then u + 1 <= t && Before(u + 1, 0, t, i)
            else Before(u, j + 1, t, i)
  {
    assert Candidate(ps, wake, u, j + 1) <==> Eligible(ps[if j + 1 == |ps| then 0 else j + 1], u, wake);
  }

  /** A search that begins with a Ready process never halts: it ends within as many rotations as there are processes. */
  lemma ReadyNeedsNoHalt(ps: seq<Proc>, wake: Wake, t: nat, i: nat)
    requires Picks(ps, wake, t, i) && ps[0].state == Ready
    ensures t == 0 && i <= |ps|
  {
    assert Candidate(ps, wake, 0, |ps|);
  }

  /** And it always ends. */
  lemma FirstReady(ps: seq<Proc>, wake: Wake) returns (i: nat)
    requires ps != [] && ps[0].state == Ready
    ensures i <= |ps| && Picks(ps, wake, 0, i)
  {
    i := 1;
    while !Candidate(ps, wake, 0, i)
      invariant 1 <= i <= |ps| && forall j :: 0 <= j < i ==> !Candidate(ps, wake, 0, j)
      decreases |ps| - i
    {
      i := i + 1;
    }
  }

  /** A process that a search finds Ready is passed by none but those in front of it. */
  lemma ReadyPassesFirst(ps: seq<Proc>, wake: Wake, t: nat, i: nat, k: nat)
    requires Picks(ps, wake, t, i) && 0 < k < |ps| && ps[k].state == Ready
    ensures t == 0 && i <= k
  {
    assert Candidate(ps, wake, 0, k);
  }

  // ---------- steps ----------

  function Woken(p: Proc): Proc {
    p.(state := Running, wait := if p.state == Waiting then NoWait else p.wait, recall := p.state != Waiting
      && p.recall)
  }

  /** The processes after the search took its i-th candidate. */
  function Resumed(ps: seq<Proc>, i: nat): seq<Proc>
    requires 1 <= i <= |ps|
  {
    Rotate(ps, i)[0 := Woken(Rotate(ps, i)[0])]
  }

  /** Whether the i-th candidate was halted in a syscall that has to run again. */
  predicate Recalls(ps: seq<Proc>, i: nat)
    requires 1 <= i <= |ps|
  {
    var p := ps[if i == |ps| then 0 else i];
    p.state == Waiting && p.recall
  }

  function Preempted(ps: seq<Proc>, frame: Frame): seq<Proc>
    requires ps != []
  {
    ps[0 := ps[0].(frame := frame, state := Ready)]
  }

  function Halted(ps: seq<Proc>, frame: Frame, wait: Wait, recall: bool): seq<Proc>
    requires ps != []
  {
    ps[0 := ps[0].(frame := frame, state := Waiting, wait := wait, recall := recall)]
  }

  /** Take the process with this pid out of the queue; the current process stays. */
  function Without(ps: seq<Proc>, pid: int): seq<Proc>
    requires ps != []
  {
    var i := IndexOf(ps, pid, 0);
    if i == 0 || i == |ps| then ps else ps[..i] + ps[i + 1..]
  }

  function IndexOf(ps: seq<Proc>, pid: int, from: nat): (r: nat)
    requires from <= |ps|
    ensures from <= r <= |ps| && (r < |ps| ==> ps[r].pid == pid)
    ensures forall j :: from <= j < r ==> ps[j].pid != pid
    decreases |ps| - from
  {
    if from == |ps| || ps[from].pid == pid then from else IndexOf(ps, pid, from + 1)
  }

  /** The same process: same id, same page directory. */
  predicate Alike(p: Proc, q: Proc) { p.pid == q.pid && p.directory == q.directory }

  predicate AllAlike(ps: seq<Proc>, qs: seq<Proc>) {
    |ps| == |qs| && forall i {:trigger ps[i]} {:trigger qs[i]} :: 0 <= i < |ps| ==> Alike(ps[i], qs[i])
  }

  datatype Event =
    | Tick(frame: Frame)
    | Sleep(frame: Frame, wait: Wait, recall: bool)
    | Spawn(proc: Proc)
    | Kill(pid: int)

  ghost predicate SwitchedFrom(ps: seq<Proc>, wake: Wake, qs: seq<Proc>) {
    exists t, i :: Picks(ps, wake, t, i) && qs == Resumed(ps, i)
  }

  ghost predicate Step(ps: seq<Proc>, e: Event, wake: Wake, qs: seq<Proc>) {
    && ps != []
    && match e
       case Tick(f) => if ps[0].state == Waiting then qs == ps else SwitchedFrom(Preempted(ps, f), wake, qs)
       case Sleep(f, w, r) => if f.int_number != SYSCALL_INT then qs == ps
         else SwitchedFrom(Halted(ps, f, w, r), wake, qs)
       case Spawn(p) => p.state == Ready && (forall q <- ps :: q.pid != p.pid) && qs == ps + [p]
       case Kill(pid) => qs == Without(ps, pid)
  }

  /** Processes are told apart by pid; only the current one may be Running, and the queue holds none that is
      Inactive. After start-up and until the first switch the current one is still marked Ready. */
  ghost predicate Fine(ps: seq<Proc>) {
    && ps != [] && (ps[0].state == Running || ps[0].state == Ready)
    && (forall i, j :: 0 <= i < j < |ps| ==> ps[i].pid != ps[j].pid)
    && (forall i :: 0 < i < |ps| ==> ps[i].state == Ready || ps[i].state == Waiting)
  }

  lemma RotateAt<T>(s: seq<T>, k: nat, j: nat)
    requires k <= |s| && j < |s|
    ensures |Rotate(s, k)| == |s|
    ensures Rotate(s, k)[j] == if j + k < |s| then s[j + k] else s[j + k - |s|]
  {
  }

  lemma SwitchKeepsFine(ps: seq<Proc>, wake: Wake, t: nat, i: nat)
    requires ps != [] && (forall i, j :: 0 <= i < j < |ps| ==> ps[i].pid != ps[j].pid)
    requires forall i :: 0 <= i < |ps| ==> ps[i].state == Ready || ps[i].state == Waiting
    requires Picks(ps, wake, t, i)
    ensures Fine(Resumed(ps, i)) && Resumed(ps, i)[0].state == Running
  {
    var qs := Resumed(ps, i);
    forall j | 0 <= j < |qs|
      ensures qs[j].pid == ps[if j + i < |ps| then j + i else j + i - |ps|].pid
      ensures j > 0 ==> qs[j].state == ps[if j + i < |ps| then j + i else j + i - |ps|].state
    {
      RotateAt(ps, i, j);
    }
  }

  /** Every step keeps the processes in order: one current, Running nowhere else. */
  lemma StepKeepsFine(ps: seq<Proc>, e: Event, wake: Wake, qs: seq<Proc>)
    requires Fine(ps) && Step(ps, e, wake, qs)
    ensures Fine(qs)
  {
    match e
    case Tick(f) =>
      if ps[0].state != Waiting {
        var t, i :| Picks(Preempted(ps, f), wake, t, i) && qs == Resumed(Preempted(ps, f), i);
        SwitchKeepsFine(Preempted(ps, f), wake, t, i);
      }
    case Sleep(f, w, r) =>
      if f.int_number == SYSCALL_INT {
        var t, i :| Picks(Halted(ps, f, w, r), wake, t, i) && qs == Resumed(Halted(ps, f, w, r), i);
        SwitchKeepsFine(Halted(ps, f, w, r), wake, t, i);
      }
    case Spawn(p) => SpawnKeepsFine(ps, p);
    case Kill(pid) => KillKeepsFine(ps, pid);
  }

  lemma SpawnKeepsFine(ps: seq<Proc>, p: Proc)
    requires Fine(ps) && ps != [] && p.state == Ready && forall q <- ps :: q.pid != p.pid
    ensures Fine(ps + [p])
  {
  }

  lemma KillKeepsFine(ps: seq<Proc>, pid: int)
    requires Fine(ps) && ps != []
    ensures Fine(Without(ps, pid))
  {
  }

  /** A switch brings the process behind index `k` to the front, or closer to it, and changes nothing about it. */
  lemma SwitchMoves(ps: seq<Proc>, wake: Wake, t: nat, i: nat, k: nat) returns (j: nat)
    requires Picks(ps, wake, t, i) && 0 < k < |ps|
    ensures j < |Resumed(ps, i)|
    ensures if i == k then j == 0 && Resumed(ps, i)[0] == Woken(ps[k]) else j > 0 && Resumed(ps, i)[j] == ps[k]
    ensures ps[k].state == Ready ==> j < k
  {
    if ps[k].state == Ready { ReadyPassesFirst(ps, wake, t, i, k); }
    j := if i <= k then k - i else k + |ps| - i;
    RotateAt(ps, i, j);
  }

  ghost predicate Sits(ps: seq<Proc>, j: nat, p: Proc) { j < |ps| && ps[j] == p }

  ghost predicate Current(ps: seq<Proc>, pid: int) { ps != [] && ps[0].pid == pid }

  /** One step moves a queued process forward or leaves it where it is; a tick always moves a Ready one. It
      changes nothing about it unless it makes it current, and then it keeps the frame saved for it. */
  lemma StepMoves(ps: seq<Proc>, e: Event, wake: Wake, qs: seq<Proc>, k: nat) returns (j: nat)
    requires Fine(ps) && Step(ps, e, wake, qs) && 0 < k < |ps| && e != Kill(ps[k].pid)
    ensures if Current(qs, ps[k].pid) then j == 0 && qs[0].frame == ps[k].frame && qs[0].directory == ps[k].directory
            else j > 0 && Sits(qs, j, ps[k])
    ensures ps[k].state == Ready ==> j <= k && (e.Tick? ==> j < k)
  {
    StepKeepsFine(ps, e, wake, qs);
    match e
    case Tick(f) =>
      var t, i :| Picks(Preempted(ps, f), wake, t, i) && qs == Resumed(Preempted(ps, f), i);
      j := SwitchMoves(Preempted(ps, f), wake, t, i, k);
    case Sleep(f, w, r) =>
      if f.int_number == SYSCALL_INT {
        var t, i :| Picks(Halted(ps, f, w, r), wake, t, i) && qs == Resumed(Halted(ps, f, w, r), i);
        j := SwitchMoves(Halted(ps, f, w, r), wake, t, i, k);
      } else {
        j := k;
      }
    case Spawn(p) =>
      j := k;
    case Kill(pid) =>
      var i := IndexOf(ps, pid, 0);
      j := if 0 < i < k then k - 1 else k;
  }

  // ---------- runs ----------

  ghost predicate Run(states: seq<seq<Proc>>, events: seq<Event>, wakes: seq<Wake>) {
    && |states| == |events| + 1 == |wakes| + 1
    && forall k {:trigger StepAt(states, events, wakes, k)} :: 0 <= k < |events| ==> StepAt(states, events, wakes, k)
  }

  ghost predicate StepAt(states: seq<seq<Proc>>, events: seq<Event>, wakes: seq<Wake>, k: nat)
    requires k + 1 < |states| && k < |events| && k < |wakes|
  {
    Step(states[k], events[k], wakes[k], states[k + 1])
  }

  function Ticks(events: seq<Event>): nat {
    if events == [] then 0 else (if events[0].Tick? then 1 else 0) + Ticks(events[1..])
  }

  lemma RunTail(states: seq<seq<Proc>>, events: seq<Event>, wakes: seq<Wake>)
    requires Run(states, events, wakes) && events != []
    ensures Step(states[0], events[0], wakes[0], states[1])
    ensures Run(states[1..], events[1..], wakes[1..])
  {
    assert StepAt(states, events, wakes, 0);
    forall k | 0 <= k < |events[1..]|
      ensures StepAt(states[1..], events[1..], wakes[1..], k)
    {
      assert StepAt(states, events, wakes, k + 1);
    }
  }

  lemma {:induction false} RunKeepsFine(states: seq<seq<Proc>>, events: seq<Event>, wakes: seq<Wake>, k: nat)
    requires Run(states, events, wakes) && Fine(states[0]) && k < |states|
    ensures Fine(states[k])
    decreases k
  {
    if k > 0 {
      RunKeepsFine(states, events, wakes, k - 1);
      assert StepAt(states, events, wakes, k - 1);
      StepKeepsFine(states[k - 1], events[k - 1], wakes[k - 1], states[k]);
    }
  }

  /** Bounded waiting: a Ready process at index k, that is at queue index k - 1, becomes current within k ticks,
      whatever processes are added, removed or put to sleep in between. */
  lemma {:induction false} BoundedWaiting(states: seq<seq<Proc>>, events: seq<Event>, wakes: seq<Wake>, k: nat)
    returns (n: nat)
    requires Run(states, events, wakes) && Fine(states[0])
    requires 0 < k < |states[0]| && states[0][k].state == Ready && Kill(states[0][k].pid) !in events
    requires Ticks(events) >= k
    ensures n <= |events| && Current(states[n], states[0][k].pid) && Ticks(events[..n]) <= k
    decreases |events|
  {
    var p := states[0][k];
    RunTail(states, events, wakes);
    StepKeepsFine(states[0], events[0], wakes[0], states[1]);
    var j := StepMoves(states[0], events[0], wakes[0], states[1], k);
    if Current(states[1], p.pid) {
      n := 1;
    } else {
      var m := BoundedWaiting(states[1..], events[1..], wakes[1..], j);
      n := m + 1;
      assert events[..n][1..] == events[1..][..m];
    }
  }

  /** A suspended process that has not been picked yet is exactly as it was left. */
  lemma {:induction false} UntouchedWhileQueued(states: seq<seq<Proc>>, events: seq<Event>, wakes: seq<Wake>, k: nat)
    returns (j: nat)
    requires Run(states, events, wakes) && Fine(states[0])
    requires 0 < k < |states[0]| && Kill(states[0][k].pid) !in events
    requires forall n :: 0 < n < |states| ==> !Current(states[n], states[0][k].pid)
    ensures j > 0 && Sits(states[|events|], j, states[0][k])
    decreases |events|
  {
    if events == [] {
      j := k;
    } else {
      RunTail(states, events, wakes);
      StepKeepsFine(states[0], events[0], wakes[0], states[1]);
      var i := StepMoves(states[0], events[0], wakes[0], states[1], k);
      assert !Current(states[1], states[0][k].pid);
      forall n | 0 < n < |states[1..]|
        ensures !Current(states[1..][n], states[0][k].pid)
      {
        assert states[1..][n] == states[n + 1];
      }
      j := UntouchedWhileQueued(states[1..], events[1..], wakes[1..], i);
    }
  }

  /** Frame preservation over whole runs: the first time a suspended process is picked again, the frame saved
      when it was suspended is the one handed out. */
  lemma ResumesWhereItStopped(states: seq<seq<Proc>>, events: seq<Event>, wakes: seq<Wake>, n: nat)
    requires Run(states, events, wakes) && Fine(states[0]) && 1 < n < |states|
    requires var pid := states[0][0].pid;
      Kill(pid) !in events && Current(states[n], pid) && forall m :: 0 < m < n ==> !Current(states[m], pid)
    requires (events[0].Tick? || events[0].Sleep?) && states[1] != states[0]
    ensures states[n][0].frame == events[0].frame
  {
    var pid := states[0][0].pid;
    RunTail(states, events, wakes);
    var s, e, w := states[1..n], events[1..n - 1], wakes[1..n - 1];
    var k := Suspended(states[0], events[0], wakes[0], states[1]);
    RunKeepsFine(states, events, wakes, 1);
    RunKeepsFine(states, events, wakes, n - 1);
    forall m | 0 <= m < |e|
      ensures StepAt(s, e, w, m)
    {
      assert StepAt(states, events, wakes, m + 1);
    }
    assert forall m {:trigger s[m]} :: 0 <= m < |s| ==> s[m] == states[m + 1];
    var j := UntouchedWhileQueued(s, e, w, k);
    assert StepAt(states, events, wakes, n - 1);
    var l := StepMoves(states[n - 1], events[n - 1], wakes[n - 1], states[n], j);
  }

  lemma Suspended(ps: seq<Proc>, e: Event, wake: Wake, qs: seq<Proc>) returns (k: nat)
    requires Fine(ps) && Step(ps, e, wake, qs) && (e.Tick? || e.Sleep?) && qs != ps && !Current(qs, ps[0].pid)
    ensures 0 < k < |qs| && qs[k].pid == ps[0].pid && qs[k].frame == e.frame
  {
    var mid := if e.Tick? then Preempted(ps, e.frame) else Halted(ps, e.frame, e.wait, e.recall);
    var t, i :| Picks(mid, wake, t, i) && qs == Resumed(mid, i);
    k := |ps| - i;
    RotateWhole(mid);
    if k > 0 { RotateAt(mid, i, k); }
  }

  // ---------- what a search, a tick and a sleep mean, field by field ----------

  /** The process a search takes is Ready, or Waiting without a predicate or with one that holds after so many halts.
      None that it looked at earlier was: it looks at them in the order of the sequence, at the one it began with last,
      again and again after one more halt each. */
  lemma PicksMeans(ps: seq<Proc>, wake: Wake, t: nat, i: nat, u: nat, j: nat)
    requires Picks(ps, wake, t, i)
    ensures 1 <= i <= |ps|
    ensures var p := if i == |ps| then ps[0] else ps[i];
      p.state == Ready || (p.state == Waiting && (p.wait == NoWait || wake(t, p.wait)))
    ensures 1 <= j <= |ps| && (u < t || (u == t && j < i)) ==>
      var q := if j == |ps| then ps[0] else ps[j];
      q.state != Ready && !(q.state == Waiting && (q.wait == NoWait || wake(u, q.wait)))
  {
    assert Before(u, j, t, i) ==> !Candidate(ps, wake, u, j);
  }

  /** And a search comes to an end where such a process stands, if it did not before. */
  lemma {:induction false} PicksBy(ps: seq<Proc>, wake: Wake, t: nat, i: nat) returns (u: nat, j: nat)
    requires 1 <= i <= |ps|
    requires var p := if i == |ps| then ps[0] else ps[i];
      p.state == Ready || (p.state == Waiting && (p.wait == NoWait || wake(t, p.wait)))
    ensures Picks(ps, wake, u, j) && (u < t || (u == t && j <= i))
    decreases t, i
  {
    u, j := t, i;
    if !Picks(ps, wake, t, i) {
      var v: nat, k: nat :| Before(v, k, t, i) && Candidate(ps, wake, v, k);
      u, j := PicksBy(ps, wake, v, k);
    }
  }

  /** The process taken is Running and comes first, with its notifier cleared if it was waiting; the others follow as
      they were, those in front of it last. */
  lemma ResumedMeans(ps: seq<Proc>, i: nat)
    requires 1 <= i <= |ps|
    ensures var p := if i == |ps| then ps[0] else ps[i];
      |Resumed(ps, i)| == |ps|
      && Resumed(ps, i)[0] == Proc(p.pid, Running, p.frame, if p.state == Waiting then NoWait else p.wait,
                                   if p.state == Waiting then false else p.recall, p.directory)
      && forall j :: 0 < j < |ps| ==> Resumed(ps, i)[j] == if j < |ps| - i then ps[j + i] else ps[j - (|ps| - i)]
    ensures Recalls(ps, i) <==> var p := if i == |ps| then ps[0] else ps[i]; p.state == Waiting && p.recall
  {
    forall j | 0 < j < |ps|
      ensures Resumed(ps, i)[j] == if j < |ps| - i then ps[j + i] else ps[j - (|ps| - i)]
    {
      RotateAt(ps, i, j);
    }
    RotateAt(ps, i, 0);
  }

  /** A process put to sleep waits for the predicate it gave, with the frame it was interrupted with, while the search
      goes on from it. */
  lemma SleepMeans(ps: seq<Proc>, f: Frame, w: Wait, r: bool, wake: Wake, qs: seq<Proc>)
    returns (t: nat, i: nat, mid: seq<Proc>)
    requires Step(ps, Sleep(f, w, r), wake, qs) && f.int_number == 0x30
    ensures mid == [Proc(ps[0].pid, Waiting, f, w, r, ps[0].directory)] + ps[1..]
    ensures Picks(mid, wake, t, i) && qs == Resumed(mid, i)
  {
    t, i :| Picks(Halted(ps, f, w, r), wake, t, i) && qs == Resumed(Halted(ps, f, w, r), i);
    mid := Halted(ps, f, w, r);
  }

  /** A process preempted stays Ready, with the frame it was interrupted with, while the search goes on from it. */
  lemma TickMeans(ps: seq<Proc>, f: Frame, wake: Wake, qs: seq<Proc>) returns (t: nat, i: nat, mid: seq<Proc>)
    requires Step(ps, Tick(f), wake, qs) && ps[0].state != Waiting
    ensures mid == [Proc(ps[0].pid, Ready, f, ps[0].wait, ps[0].recall, ps[0].directory)] + ps[1..]
    ensures Picks(mid, wake, t, i) && qs == Resumed(mid, i)
  {
    t, i :| Picks(Preempted(ps, f), wake, t, i) && qs == Resumed(Preempted(ps, f), i);
    mid := Preempted(ps, f);
  }

  /** A process killed is taken out of its place in the queue; the current one, and an id that is not there, are not. */
  lemma KillMeans(ps: seq<Proc>, pid: int, wake: Wake, qs: seq<Proc>)
    requires Fine(ps) && Step(ps, Kill(pid), wake, qs)
    ensures (ps[0].pid == pid || forall i :: 0 <= i < |ps| ==> ps[i].pid != pid) ==> qs == ps
    ensures forall i :: 0 < i < |ps| && ps[i].pid == pid ==> qs == ps[..i] + ps[i + 1..]
  {
  }

  /** The sequence a step searches. */
  ghost predicate SearchedFrom(ps: seq<Proc>, e: Event, mid: seq<Proc>) {
    && ps != [] && (e.Tick? || e.Sleep?)
    && mid == [if e.Tick? then Proc(ps[0].pid, Ready, e.frame, ps[0].wait, ps[0].recall, ps[0].directory)
               else Proc(ps[0].pid, Waiting, e.frame, e.wait, e.recall, ps[0].directory)] + ps[1..]
  }

  /** A step that makes another process current, or the same one again after a sleep, has searched. */
  lemma StepSearches(ps: seq<Proc>, e: Event, wake: Wake, qs: seq<Proc>) returns (t: nat, i: nat, mid: seq<Proc>)
    requires Fine(ps) && Step(ps, e, wake, qs)
    requires !Current(qs, ps[0].pid) || (e.Sleep? && e.frame.int_number == 0x30)
    ensures SearchedFrom(ps, e, mid) && Picks(mid, wake, t, i) && qs == Resumed(mid, i)
  {
    match e
    case Tick(f) => t, i, mid := TickMeans(ps, f, wake, qs);
    case Sleep(f, w, r) =>
      if f.int_number == 0x30 { t, i, mid := SleepMeans(ps, f, w, r, wake, qs); }
    case Spawn(p) =>
    case Kill(pid) =>
  }

  /** Over any run, a process that went to sleep on a predicate is current again only by a search that found the
      predicate to hold when it took the process, and its syscall then runs again exactly when it was to. */
  lemma WaitsForIt(states: seq<seq<Proc>>, events: seq<Event>, wakes: seq<Wake>, n: nat)
    returns (t: nat, i: nat, mid: seq<Proc>)
    requires Run(states, events, wakes) && Fine(states[0]) && 0 < n < |states|
    requires events[0].Sleep? && events[0].wait.Until? && events[0].frame.int_number == 0x30
    requires var pid := states[0][0].pid;
      Kill(pid) !in events && Current(states[n], pid) && forall m :: 0 < m < n ==> !Current(states[m], pid)
    ensures SearchedFrom(states[n - 1], events[n - 1], mid) && Picks(mid, wakes[n - 1], t, i)
    ensures states[n] == Resumed(mid, i) && wakes[n - 1](t, events[0].wait) && (Recalls(mid, i) <==> events[0].recall)
  {
    RunTail(states, events, wakes);
    if n == 1 {
      t, i, mid := StepSearches(states[0], events[0], wakes[0], states[1]);
      TakenFirst(mid, i);
    } else {
      var s, e, w := states[1..n], events[1..n - 1], wakes[1..n - 1];
      var k := Asleep(states[0], events[0], wakes[0], states[1]);
      var p := states[1][k];
      RunKeepsFine(states, events, wakes, 1);
      RunKeepsFine(states, events, wakes, n - 1);
      InnerRun(states, events, wakes, n);
      assert forall m {:trigger s[m]} :: 0 <= m < |s| ==> s[m] == states[m + 1];
      var j := UntouchedWhileQueued(s, e, w, k);
      assert StepAt(states, events, wakes, n - 1) && states[n - 1][j] == p;
      PidFirst(states[n - 1], j);
      t, i, mid := StepSearches(states[n - 1], events[n - 1], wakes[n - 1], states[n]);
      TakenIs(states[n - 1], mid, i, j, states[n]);
    }
  }

  lemma InnerRun(states: seq<seq<Proc>>, events: seq<Event>, wakes: seq<Wake>, n: nat)
    requires Run(states, events, wakes) && 1 < n < |states|
    ensures Run(states[1..n], events[1..n - 1], wakes[1..n - 1])
  {
    var s, e, w := states[1..n], events[1..n - 1], wakes[1..n - 1];
    forall m | 0 <= m < |e|
      ensures StepAt(s, e, w, m)
    {
      assert StepAt(states, events, wakes, m + 1);
    }
  }

  lemma PidFirst(ps: seq<Proc>, j: nat)
    requires Fine(ps) && 0 < j < |ps|
    ensures ps[0].pid != ps[j].pid
  {
  }

  lemma TakenFirst(mid: seq<Proc>, i: nat)
    requires 1 <= i <= |mid| && (forall j, k :: 0 <= j < k < |mid| ==> mid[j].pid != mid[k].pid)
    requires Current(Resumed(mid, i), mid[0].pid)
    ensures i == |mid|
  {
    ResumedMeans(mid, i);
  }

  /** The process that is current after a search is the one that was taken. */
  lemma TakenIs(ps: seq<Proc>, mid: seq<Proc>, i: nat, j: nat, qs: seq<Proc>)
    requires Fine(ps) && |mid| == |ps| && 1 <= i <= |mid| && 0 < j < |ps| && mid[0].pid == ps[0].pid
    requires mid[1..] == ps[1..] && qs == Resumed(mid, i) && Current(qs, ps[j].pid)
    ensures i == j && mid[j] == ps[j]
  {
    ResumedMeans(mid, i);
    assert forall l :: 0 < l < |ps| ==> mid[l] == mid[1..][l - 1] == ps[1..][l - 1] == ps[l];
  }

  /** A process put to sleep and not taken at once is in the queue, waiting. */
  lemma Asleep(ps: seq<Proc>, e: Event, wake: Wake, qs: seq<Proc>) returns (k: nat)
    requires Fine(ps) && Step(ps, e, wake, qs) && e.Sleep? && e.frame.int_number == 0x30 && !Current(qs, ps[0].pid)
    ensures 0 < k < |qs| && qs[k] == Proc(ps[0].pid, Waiting, e.frame, e.wait, e.recall, ps[0].directory)
  {
    var t, i, mid := SleepMeans(ps, e.frame, e.wait, e.recall, wake, qs);
    ResumedMeans(mid, i);
    k := |mid| - i;
  }
}
