/** Whole runs of the FAT driver against the abstract file system. */
module FatRun {
  import opened FatLayout
  import opened FatVolume
  import opened FatTree
  import opened FatFile
  import opened FatNames
  import opened FatSpec
  import opened CStrings
  import opened FatZeroed

  /** An operation that may change the disk: making a file or directory, deleting an entry, or one write with its
      answer, also when it is -1 because the disk is full. Reading and opening change nothing, nor does making or
      deleting when it fails. */
  datatype Op =
    | Make(parent: seq<char>, name: seq<char>, ext: seq<char>, aFile: bool, slot: Slot)
    | Remove(path: Path, slot: Slot)
    | Store(path: Path, slot: Slot, at: nat, to: nat, data: seq<char>, stale: Cluster, r: int)

  datatype State = State(v: Volume, m: Meta)

  /** What the driver's methods promise of each operation. */
  ghost predicate Did(a: State, op: Op, b: State) {
    match op
    case Make(parent, name, ext, aFile, s) => CreatedAs(a.v, a.m, b.v, b.m, s, parent, name, ext, aFile)
    case Remove(path, s) => DeletedSlot(a.v, a.m, b.v, b.m, s) && Named(a, s, path)
    case Store(path, s, at, to, data, stale, r) =>
      !IsDir(EntryAt(a.v, s)) && Written(a.v, a.m, b.v, b.m, s, at, to, stale, data, r) && Named(a, s, path)
  }

  ghost predicate Named(a: State, s: Slot, path: Path) {
    s in a.m.chains && (WF(a.v, a.m) ==> path == PathOf(a.v, a.m, s))
  }

  ghost predicate Run(states: seq<State>, ops: seq<Op>) {
    && |states| == |ops| + 1
    && forall k {:trigger DidAt(states, ops, k)} :: 0 <= k < |ops| ==> DidAt(states, ops, k)
  }

  ghost predicate DidAt(states: seq<State>, ops: seq<Op>, k: nat)
    requires k < |ops| && k + 1 < |states|
  {
    Did(states[k], ops[k], states[k + 1])
  }

  // ---------- the abstract file system ----------

  function FullPath(op: Op): Path
    requires op.Make?
  {
    Tokens(op.parent, '/') + [if op.aFile then Joined(op.name, op.ext) else op.name]
  }

  function Apply(fs: FileSystem, op: Op): FileSystem {
    match op
    case Make(_, _, _, aFile, _) => fs[FullPath(op) := if aFile then File([]) else Directory]
    case Remove(path, _) => fs - {path}
    case Store(path, _, at, to, data, stale, r) =>
      if path in fs && fs[path].File? && at <= |fs[path].bytes| && at <= to <= at + |data| then
        fs[path := File(AfterWrite(fs[path].bytes, at, to, data, stale, r))]
      else fs
  }

  /** The bytes of a file after a write from `at` that stopped at `to`: the data laid over them; within the old size
      what was stored before the disk was full; or the stale buffer of an empty first write. */
  function AfterWrite(was: seq<char>, at: nat, to: nat, data: seq<char>, stale: Cluster, r: int): seq<char>
    requires at <= |was| && at <= to <= at + |data|
  {
    if r < 0 then Overlay(was, at, data[..to - at])[..|was|]
    else if to > 0 then Overlay(was, at, data)
    else Overlay(was, 0, stale)[..|was|]
  }

  function ApplyAll(fs: FileSystem, ops: seq<Op>): FileSystem
    decreases |ops|
  {
    if ops == [] then fs else ApplyAll(Apply(fs, ops[0]), ops[1..])
  }

  /** Names that are used are not made again: the one thing the driver does not check when there is an extension. */
  predicate Fresh(fs: FileSystem, ops: seq<Op>)
    decreases |ops|
  {
    ops == [] || ((ops[0].Make? ==> FreshPath(fs, ops[0])) && Fresh(Apply(fs, ops[0]), ops[1..]))
  }

  predicate FreshPath(fs: FileSystem, op: Op)
    requires op.Make?
  {
    var path := FullPath(op);
    PlainName(path[|path| - 1]) && path !in fs
  }

  /** One operation on a well-formed volume is one operation on the abstract file system. */
  lemma StepRefines(a: State, op: Op, b: State)
    requires WF(a.v, a.m) && Addressable(a.v, a.m) && Did(a, op, b) && (op.Make? ==> FreshPath(Abs(a.v, a.m), op))
    ensures WF(b.v, b.m) && Addressable(b.v, b.m) && Abs(b.v, b.m) == Apply(Abs(a.v, a.m), op)
  {
    hide WF, Addressable, Abs, PathOf, EntryAt, Tokens, CreatedAs, DeletedSlot, IsDir, Overlay, Bytes;
    match op
    case Make(parent, name, ext, aFile, s) =>
      var full := if aFile then Joined(name, ext) else name;
      assert FullPath(op)[|FullPath(op)| - 1] == full;
      CreateAbs(a.v, a.m, b.v, b.m, s, parent, name, ext, aFile);
    case Remove(path, s) =>
      DeleteAbs(a.v, a.m, b.v, b.m, s);
    case Store(path, s, at, to, data, stale, r) =>
      hide Written, AfterWrite;
      StoredBytes(a, op, b);
      WriteAbs(a.v, a.m, b.v, b.m, s, at, to, stale, data, r);
      AbsAt(a.v, a.m);
  }

  lemma StoredBytes(a: State, op: Op, b: State)
    requires Did(a, op, b) && op.Store?
    ensures op.slot in a.m.chains && ObjOf(a.v, a.m, op.slot) == File(Bytes(a.v, a.m, op.slot))
    ensures op.at <= |Bytes(a.v, a.m, op.slot)| && op.at <= op.to <= op.at + |op.data|
    ensures Bytes(b.v, b.m, op.slot) == AfterWrite(Bytes(a.v, a.m, op.slot), op.at, op.to, op.data, op.stale, op.r)
  {
    hide WF, EntryAt, IsDir, Overlay, Content, SameNames, Kept, PathOf;
  }

  /** Any operation, on a path used before or not, keeps the volume well formed. */
  lemma StepKeepsWF(a: State, op: Op, b: State)
    requires WF(a.v, a.m) && Did(a, op, b)
    ensures WF(b.v, b.m)
  {
    hide WF, EntryAt, Tokens, IsDir, CreatedAs, DeletedSlot, PathOf;
    match op
    case Make(parent, name, ext, aFile, s) =>
      CreatedFacts(a.v, a.m, b.v, b.m, s, parent, name, ext, aFile);
    case Remove(path, s) =>
      RemoveOpKeepsWF(a, op, b);
    case Store(path, s, at, to, data, stale, r) =>
      hide Written;
      WrittenKeepsWF(a.v, a.m, b.v, b.m, s, at, to, stale, data, r);
  }

  lemma RemoveOpKeepsWF(a: State, op: Op, b: State)
    requires WF(a.v, a.m) && Did(a, op, b) && op.Remove?
    ensures WF(b.v, b.m)
  {
    hide WF, EntryAt, Removable, RemoveEntry;
    RemoveKeepsWF(a.v, a.m, op.slot);
  }

  lemma RunTail(states: seq<State>, ops: seq<Op>)
    requires Run(states, ops) && ops != []
    ensures Did(states[0], ops[0], states[1]) && Run(states[1..], ops[1..])
  {
    hide Did;
    assert DidAt(states, ops, 0);
    var rest := states[1..];
    forall k | 0 <= k < |ops[1..]|
      ensures DidAt(rest, ops[1..], k)
    {
      assert DidAt(states, ops, k + 1);
    }
  }

  /** Safety over whole runs: from a well-formed volume every run leads to well-formed volumes only. */
  lemma {:induction false} RunKeepsWF(states: seq<State>, ops: seq<Op>, n: nat)
    requires Run(states, ops) && WF(states[0].v, states[0].m) && n < |states|
    ensures WF(states[n].v, states[n].m)
    decreases n
  {
    hide WF, Did;
    if n > 0 {
      RunKeepsWF(states, ops, n - 1);
      assert DidAt(states, ops, n - 1);
      StepKeepsWF(states[n - 1], ops[n - 1], states[n]);
    }
  }

  /** Every run leaves the directory slots that are not in use zeroed. */
  lemma {:induction false} RunKeepsZeroed(states: seq<State>, ops: seq<Op>, n: nat)
    requires Run(states, ops) && WF(states[0].v, states[0].m) && Zeroed(states[0].v, states[0].m) && n < |states|
    ensures Zeroed(states[n].v, states[n].m)
    decreases n
  {
    hide WF, Zeroed, EntryAt, IsDir, CreatedAs, DeletedSlot, Written, Named;
    if n > 0 {
      RunKeepsZeroed(states, ops, n - 1);
      RunKeepsWF(states, ops, n - 1);
      assert DidAt(states, ops, n - 1);
      var a, b := states[n - 1], states[n];
      match ops[n - 1]
      case Make(parent, name, ext, aFile, s) => MadeZeroed(a.v, a.m, b.v, b.m, s, parent, name, ext, aFile);
      case Remove(path, s) => DeletedZeroed(a.v, a.m, b.v, b.m, s);
      case Store(path, s, at, to, data, stale, r) => WriteZeroed(a.v, a.m, b.v, b.m, s, at, to, stale, data, r);
    }
  }

  /** Refinement over whole runs: after any run that makes no path twice, every path is found and the file system is
      what the operations do to the abstract one. */
  lemma {:induction false} RunRefines(states: seq<State>, ops: seq<Op>)
    requires Run(states, ops) && WF(states[0].v, states[0].m) && Addressable(states[0].v, states[0].m)
    requires Fresh(Abs(states[0].v, states[0].m), ops)
    ensures var last := states[|ops|];
      WF(last.v, last.m) && Addressable(last.v, last.m)
      && Abs(last.v, last.m) == ApplyAll(Abs(states[0].v, states[0].m), ops)
    decreases |ops|
  {
    hide WF, Addressable, Abs, Apply, Did, FreshPath, Run;
    RunShape(states, ops);
    if ops != [] {
      RunTail(states, ops);
      StepRefines(states[0], ops[0], states[1]);
      RunRefines(states[1..], ops[1..]);
    }
  }

  lemma RunShape(states: seq<State>, ops: seq<Op>)
    requires Run(states, ops)
    ensures |states| == |ops| + 1
  {
  }

  // ---------- composing runs ----------

  lemma RunNone(a: State)
    ensures Run([a], [])
  {
  }

  lemma RunSnoc(states: seq<State>, ops: seq<Op>, op: Op, b: State)
    requires Run(states, ops) && Did(states[|ops|], op, b)
    ensures Run(states + [b], ops + [op])
  {
    hide Did;
    var s, o := states + [b], ops + [op];
    forall k | 0 <= k < |o|
      ensures DidAt(s, o, k)
    {
      if k < |ops| { assert DidAt(states, ops, k); }
    }
  }
}
