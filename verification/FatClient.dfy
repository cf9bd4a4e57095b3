/** A client of the FAT driver: any sequence of requests is a run of operations as FatRun describes them. */
module FatClient {
  import opened FatLayout
  import opened FatVolume
  import opened FatTree
  import opened FatFile
  import opened FatNames
  import opened FatSpec
  import opened FatRun
  import opened FatZeroed
  import opened CStrings
  import Driver = Fat32Driver

  datatype Request =
    | MakeFile(path: seq<char>)
    | MakeDirectory(path: seq<char>)
    | Delete(path: seq<char>)
    | WriteFile(path: seq<char>, chunks: seq<seq<char>>)

  ghost function StateOf(fs: Driver.Fat32): State
    requires fs.Shape()
    reads fs, fs.disk, fs.cluster_map
  {
    State(fs.V(), fs.m)
  }

  /** `states` and `ops` are a run that led to where the driver is now. */
  ghost predicate LedTo(fs: Driver.Fat32, states: seq<State>, ops: seq<Op>)
    requires fs.Shape()
    reads fs, fs.disk, fs.cluster_map
  {
    Run(states, ops) && states[|ops|] == StateOf(fs)
  }

  lemma Extended(states: seq<State>, ops: seq<Op>, op: Op, b: State)
    requires Run(states, ops) && Did(states[|ops|], op, b)
    ensures Run(states + [b], ops + [op]) && (states + [b])[|ops + [op]|] == b && (states + [b])[0] == states[0]
  {
    hide Did;
    RunSnoc(states, ops, op, b);
  }

  /** The operations a request is answered with, from the state before it: none exactly when the driver refuses it or
      may not be given it. */
  ghost predicate Performed(a: State, q: Request, done: seq<Op>) {
    match q
    case MakeFile(path) =>
      && (done == [] <==> !(Tokens(NamePart(path), '.') != [] && NotAFile(a.v, Tokens(ParentPart(path), '/'))
                            && |Stem(NamePart(path))| <= 7 && |Extension(NamePart(path))| <= 2
                            && MayCreate(a.v, ParentPart(path), Stem(NamePart(path)))))
      && (done != [] ==> |done| == 1 && done[0].Make? && done[0].parent == ParentPart(path) && done[0].aFile
                         && done[0].name == Stem(NamePart(path)) && done[0].ext == Extension(NamePart(path)))
    case MakeDirectory(path) =>
      && (done == [] <==> !(NotAFile(a.v, Tokens(ParentPart(path), '/'))
                            && '.' !in NamePart(path) && |NamePart(path)| <= 7
                            && MayCreate(a.v, ParentPart(path), NamePart(path))))
      && (done != [] ==> |done| == 1 && done[0].Make? && done[0].parent == ParentPart(path) && !done[0].aFile
                         && done[0].name == NamePart(path))
    case Delete(path) =>
      var r := Lookup(a.v, Tokens(path, '/'));
      && (done == [] <==> !(r.Some? && Removable(a.v, a.m, r.value)))
      && (done != [] ==> |done| == 1 && done[0].Remove? && done[0].path == Tokens(path, '/'))
    case WriteFile(path, chunks) =>
      var r := Lookup(a.v, Tokens(path, '/'));
      && (done == [] <==> chunks == [] || !(r.Some? && !IsDir(EntryAt(a.v, r.value))))
      && Stores(Tokens(path, '/'), chunks, done)
      && (0 < |done| < |chunks| ==> done[|done| - 1].Store? && done[|done| - 1].r == -1)
  }

  /** The chunks, or the first of them, one after the other from the start of the file. */
  ghost predicate Stores(path: Path, chunks: seq<seq<char>>, done: seq<Op>) {
    && |done| <= |chunks|
    && (forall k {:trigger done[k]} :: 0 <= k < |done| ==>
          done[k].Store? && done[k].path == path && done[k].data == chunks[k])
    && (forall k {:trigger done[k]} :: 0 <= k < |done| ==>
          done[k].at == if k == 0 then 0 else if done[k - 1].Store? then done[k - 1].to else 0)
    && (forall k {:trigger done[k]} :: 0 <= k < |done| - 1 ==> done[k].Store? && done[k].r == |chunks[k]|)
  }

  /** Whether mkfile and mkdir may be given this parent: nothing, or not a file. */
  method ParentAllowed(fs: Driver.Fat32, parent: seq<char>) returns (ok: bool)
    requires NUL !in parent && fs.Shape()
    requires fs.Valid()
    ensures ok <==> NotAFile(fs.V(), Tokens(parent, '/'))
    ensures fs.Valid() && fs.V() == old(fs.V()) && fs.m == old(fs.m)
  {
    hide WF, EntryAt, FullName, Tokens, Walk, IsDir, Table, CountUsed;
    var status, e := fs.Stat(parent);
    ok := status != 0 || e.isDir;
  }

  method ServeMakeFile(fs: Driver.Fat32, path: seq<char>, ghost states: seq<State>, ghost ops: seq<Op>)
    returns (ghost states': seq<State>, ghost done: seq<Op>)
    requires NUL !in path && fs.Shape() && LedTo(fs, states, ops)
    requires fs.Valid()
    modifies fs`m, fs.disk, fs.cluster_map
    ensures fs.Valid() && LedTo(fs, states', ops + done) && states <= states'
    ensures Performed(old(StateOf(fs)), MakeFile(path), done)
  {
    hide WF, Tokens, MayCreate, CreatedAs, Run, LastSlash, NotAFile;
    states', done := states, [];
    assert ops + [] == ops;
    RunShape(states, ops);
    PathParts(path);
    if Tokens(NamePart(path), '.') == [] { return; }
    var ok := ParentAllowed(fs, ParentPart(path));
    if !ok { return; }
    var r, s := fs.MkFile(path);
    if r == 0 {
      var op := Make(ParentPart(path), Stem(NamePart(path)), Extension(NamePart(path)), true, s);
      Extended(states, ops, op, StateOf(fs));
      states', done := states + [StateOf(fs)], [op];
    }
  }

  method MakeDirectoryAt(fs: Driver.Fat32, path: seq<char>) returns (r: int, ghost s: Slot)
    requires NUL !in path && fs.Shape() && NotAFile(fs.V(), Tokens(ParentPart(path), '/'))
    requires fs.Valid()
    modifies fs`m, fs.disk, fs.cluster_map
    ensures fs.Valid() && (r == -1 ==> fs.V() == old(fs.V()) && fs.m == old(fs.m)) && (r == 0 || r == -1)
    ensures r == 0 <==>
      '.' !in NamePart(path) && |NamePart(path)| <= 7 && MayCreate(old(fs.V()), ParentPart(path), NamePart(path))
    ensures r == 0 ==> CreatedAs(old(fs.V()), old(fs.m), fs.V(), fs.m, s, ParentPart(path), NamePart(path), [], false)
  {
    hide WF, Tokens, MayCreate, CreatedAs, LastSlash, ParentPart, NamePart, NotAFile;
    var buf := new char[|path| + 1](i requires 0 <= i <= |path| => if i < |path| then path[i] else NUL);
    assert buf[..|path|] == path;
    r, s := fs.MkDir(buf, path);
  }

  method ServeMakeDirectory(fs: Driver.Fat32, path: seq<char>, ghost states: seq<State>, ghost ops: seq<Op>)
    returns (ghost states': seq<State>, ghost done: seq<Op>)
    requires NUL !in path && fs.Shape() && LedTo(fs, states, ops)
    requires fs.Valid()
    modifies fs`m, fs.disk, fs.cluster_map
    ensures fs.Valid() && LedTo(fs, states', ops + done) && states <= states'
    ensures Performed(old(StateOf(fs)), MakeDirectory(path), done)
  {
    hide WF, Tokens, MayCreate, CreatedAs, Run, LastSlash, NotAFile;
    states', done := states, [];
    assert ops + [] == ops;
    RunShape(states, ops);
    PathParts(path);
    var ok := ParentAllowed(fs, ParentPart(path));
    if !ok { return; }
    var r, s := MakeDirectoryAt(fs, path);
    if r == 0 {
      var op := Make(ParentPart(path), NamePart(path), [], false, s);
      Extended(states, ops, op, StateOf(fs));
      states', done := states + [StateOf(fs)], [op];
    }
  }

  method ServeDelete(fs: Driver.Fat32, path: seq<char>, ghost states: seq<State>, ghost ops: seq<Op>)
    returns (ghost states': seq<State>, ghost done: seq<Op>)
    requires NUL !in path && fs.Shape() && LedTo(fs, states, ops)
    requires fs.Valid()
    modifies fs`m, fs.disk, fs.cluster_map
    ensures fs.Valid() && LedTo(fs, states', ops + done) && states <= states'
    ensures Performed(old(StateOf(fs)), Delete(path), done)
  {
    hide WF, Tokens, Walk, DeletedSlot, Run, PathOf, Table, CountUsed, Removable;
    states', done := states, [];
    assert ops + [] == ops;
    RunShape(states, ops);
    if Tokens(path, '/') == [] { return; }
    ghost var v, m := fs.V(), fs.m;
    FoundPath(v, m, Tokens(path, '/'));
    var r := fs.DeleteVfs(path);
    if r == 0 {
      ghost var s := Walk(v, ROOT_CLUSTER_NUMBER, Tokens(path, '/')).value;
      var op := Op.Remove(PathOf(v, m, s), s);
      Extended(states, ops, op, StateOf(fs));
      states', done := states + [StateOf(fs)], [op];
    }
  }

  lemma FoundPath(v: Volume, m: Meta, p: Path)
    requires WF(v, m) && p != []
    ensures Lookup(v, p) == Walk(v, ROOT_CLUSTER_NUMBER, p)
    ensures Lookup(v, p).Some? ==> Lookup(v, p).value in m.chains && PathOf(v, m, Lookup(v, p).value) == p
  {
    hide WF, PathOf, Walk;
    TargetDirPath(v, m, []);
    WalkSound(v, m, ROOT_CLUSTER_NUMBER, p);
  }

  /** One `write_vfs` call is one operation, whatever it answers. */
  method ServeWrite(fs: Driver.Fat32, h: Driver.VFSState, chunk: seq<char>, ghost states: seq<State>,
                    ghost ops: seq<Op>)
    returns (r: int, ghost states': seq<State>, ghost op: Op)
    requires fs.Shape() && h.buffer.Length == CLUSTER_SIZE && LedTo(fs, states, ops)
    requires fs.ForWriting(h)
    requires fs.Valid()
    modifies fs`m, fs.disk, fs.cluster_map, h, h.buffer
    ensures fs.Valid() && LedTo(fs, states', ops + [op]) && states <= states'
    ensures h.Target() == old(h.Target()) && fs.Valid() && h.Target() in fs.m.chains && h.Target() in old(fs.m).chains
    ensures PathOf(fs.V(), fs.m, h.Target()) == old(PathOf(fs.V(), fs.m, h.Target()))
    ensures op.Store? && op.path == old(PathOf(fs.V(), fs.m, h.Target())) && op.slot == h.Target()
    ensures op.data == chunk && op.at == old(h.progress_pointer) && op.to == h.progress_pointer && op.r == r
    ensures r >= 0 ==> fs.ForWriting(h)
    ensures r == |chunk| || r == -1
  {
    hide WF, Run, PathOf, EntryAt, IsDir, Written;
    RunShape(states, ops);
    var n := |chunk|;
    var buffer := new char[n](i requires 0 <= i < n => chunk[i]);
    assert buffer[..n] == chunk;
    ghost var v, m, s, p0, stale := fs.V(), fs.m, h.Target(), h.progress_pointer, h.buffer[..];
    r := fs.WriteVfs(h, buffer, n);
    WrittenPath(v, m, fs.V(), fs.m, s, p0, h.progress_pointer, stale, chunk, r);
    op := Store(PathOf(v, m, s), s, p0, h.progress_pointer, chunk, stale, r);
    Extended(states, ops, op, StateOf(fs));
    states' := states + [StateOf(fs)];
  }

  lemma WrittenPath(v0: Volume, m0: Meta, v: Volume, m: Meta, s: Slot, p0: nat, p: nat, stale: Cluster,
                    data: seq<char>, r: int)
    requires WF(v0, m0) && WF(v, m) && Written(v0, m0, v, m, s, p0, p, stale, data, r)
    ensures s in m0.chains && s in m.chains && PathOf(v, m, s) == PathOf(v0, m0, s)
  {
    hide WF, PathOf, EntryAt, IsDir, Kept, OthersKept, Lengthened, Mirrored, Overlay, FreeSet, Clusters, SameNames;
    SameNamesAddressable(v0, m0, v, m);
  }

  /** Open a file and write the chunks one after the other, until the disk is full. */
  method ServeWriteFile(fs: Driver.Fat32, path: seq<char>, chunks: seq<seq<char>>, ghost states: seq<State>,
                        ghost ops: seq<Op>)
    returns (ghost states': seq<State>, ghost done: seq<Op>)
    requires NUL !in path && fs.Shape() && LedTo(fs, states, ops)
    requires fs.Valid()
    modifies fs`m, fs.disk, fs.cluster_map
    ensures fs.Valid() && LedTo(fs, states', ops + done) && states <= states'
    ensures Performed(old(StateOf(fs)), WriteFile(path, chunks), done)
  {
    hide WF, Tokens, Walk, Run, EntryAt, IsDir, PathOf;
    states', done := states, [];
    assert ops + [] == ops;
    RunShape(states, ops);
    ghost var p := Tokens(path, '/');
    if p != [] { FoundPath(fs.V(), fs.m, p); }
    var h := fs.Open(path);
    if h == null { return; }
    var i := 0;
    while i < |chunks|
      invariant fs.Valid() && i <= |chunks| && LedTo(fs, states', ops + done)
      invariant states <= states' && |done| == i && Stores(p, chunks, done)
      invariant fresh(h) && fresh(h.buffer) && h.buffer.Length == CLUSTER_SIZE && fs.ForWriting(h)
      invariant h.Target() in fs.m.chains && PathOf(fs.V(), fs.m, h.Target()) == p
      invariant h.progress_pointer == if i == 0 then 0 else if done[i - 1].Store? then done[i - 1].to else 0
      invariant forall k {:trigger done[k]} :: 0 <= k < |done| ==> done[k].Store? && done[k].r == |chunks[k]|
    {
      hide LedTo, Stores;
      var r;
      ghost var op;
      r, states', op := ServeWrite(fs, h, chunks[i], states', ops + done);
      StoresSnoc(p, chunks, done, op);
      assert ops + done + [op] == ops + (done + [op]);
      done := done + [op];
      if r < 0 { return; }
      i := i + 1;
    }
  }

  lemma StoresSnoc(path: Path, chunks: seq<seq<char>>, done: seq<Op>, op: Op)
    requires Stores(path, chunks, done) && |done| < |chunks|
    requires forall k {:trigger done[k]} :: 0 <= k < |done| ==> done[k].Store? && done[k].r == |chunks[k]|
    requires op.Store? && op.path == path && op.data == chunks[|done|]
    requires op.at == if done == [] then 0 else if done[|done| - 1].Store? then done[|done| - 1].to else 0
    ensures Stores(path, chunks, done + [op])
  {
  }

  method Serve(fs: Driver.Fat32, q: Request, ghost states: seq<State>, ghost ops: seq<Op>)
    returns (ghost states': seq<State>, ghost done: seq<Op>)
    requires NUL !in q.path && fs.Shape() && LedTo(fs, states, ops)
    requires fs.Valid()
    modifies fs`m, fs.disk, fs.cluster_map
    ensures fs.Valid() && LedTo(fs, states', ops + done) && states <= states'
    ensures Performed(old(StateOf(fs)), q, done)
  {
    hide WF, Run, Performed;
    match q
    case MakeFile(path) => states', done := ServeMakeFile(fs, path, states, ops);
    case MakeDirectory(path) => states', done := ServeMakeDirectory(fs, path, states, ops);
    case Delete(path) => states', done := ServeDelete(fs, path, states, ops);
    case WriteFile(path, chunks) => states', done := ServeWriteFile(fs, path, chunks, states, ops);
  }

  /** Request `k` was answered with the operations from `marks[k]` to `marks[k + 1]`. */
  ghost predicate Answered(qs: seq<Request>, states: seq<State>, ops: seq<Op>, marks: seq<nat>) {
    && |marks| <= |qs| + 1 && |states| == |ops| + 1
    && (forall k {:trigger marks[k]} :: 0 <= k < |marks| ==> marks[k] <= |ops|)
    && (forall k {:trigger qs[k]} :: 0 <= k < |marks| - 1 ==>
          marks[k] <= marks[k + 1] && Performed(states[marks[k]], qs[k], ops[marks[k]..marks[k + 1]]))
  }

  lemma AnsweredNext(qs: seq<Request>, states: seq<State>, ops: seq<Op>, marks: seq<nat>, states': seq<State>,
                     done: seq<Op>)
    requires Answered(qs, states, ops, marks) && 0 < |marks| <= |qs| && marks[|marks| - 1] == |ops|
    requires states <= states' && |states'| == |ops + done| + 1
    requires Performed(states[|ops|], qs[|marks| - 1], done)
    ensures Answered(qs, states', ops + done, marks + [|ops + done|])
  {
    hide Performed;
    var ops', marks' := ops + done, marks + [|ops + done|];
    forall k | 0 <= k < |marks'| - 1
      ensures marks'[k] <= marks'[k + 1] && Performed(states'[marks'[k]], qs[k], ops'[marks'[k]..marks'[k + 1]])
    {
      if k < |marks| - 1 {
        var q := qs[k];
        assert marks[k] <= marks[k + 1] && Performed(states[marks[k]], q, ops[marks[k]..marks[k + 1]]);
        assert ops'[marks[k]..marks[k + 1]] == ops[marks[k]..marks[k + 1]];
      } else {
        assert ops'[|ops|..|ops'|] == done;
      }
    }
  }

  /** Whatever is asked of the driver, it goes through a run of operations from well-formed volume to well-formed
      volume, answering one request after the other; and while no path is made twice, what is on the disk is what the
      operations do to the abstract file system. */
  method ServeAll(fs: Driver.Fat32, qs: seq<Request>)
    returns (ghost states: seq<State>, ghost ops: seq<Op>, ghost marks: seq<nat>)
    requires (forall q <- qs :: NUL !in q.path) && fs.Shape()
    requires fs.Valid()
    modifies fs`m, fs.disk, fs.cluster_map
    ensures fs.Valid() && Run(states, ops) && states[0] == old(StateOf(fs)) && states[|ops|] == StateOf(fs)
    ensures |marks| == |qs| + 1 && marks[0] == 0 && marks[|qs|] == |ops| && Answered(qs, states, ops, marks)
    ensures old(Addressable(fs.V(), fs.m)) && Fresh(old(Abs(fs.V(), fs.m)), ops) ==>
      Addressable(fs.V(), fs.m) && Abs(fs.V(), fs.m) == ApplyAll(old(Abs(fs.V(), fs.m)), ops)
    ensures old(Zeroed(fs.V(), fs.m)) ==> Zeroed(fs.V(), fs.m)
  {
    hide WF, Run, Addressable, Abs, Fresh, ApplyAll, Zeroed, Performed, LedTo;
    states, ops, marks := [StateOf(fs)], [], [0];
    StartRun(fs);
    var i := 0;
    while i < |qs|
      invariant i <= |qs| && fs.Valid() && LedTo(fs, states, ops) && states != [] && states[0] == old(StateOf(fs))
      invariant |marks| == i + 1 && marks[0] == 0 && marks[i] == |ops| && Answered(qs, states, ops, marks)
    {
      ghost var states', done;
      RunLed(fs, states, ops);
      states', done := Serve(fs, qs[i], states, ops);
      RunLed(fs, states', ops + done);
      AnsweredNext(qs, states, ops, marks, states', done);
      states, ops, marks := states', ops + done, marks + [|ops + done|];
      i := i + 1;
    }
    RunLed(fs, states, ops);
    if old(Addressable(fs.V(), fs.m)) && Fresh(old(Abs(fs.V(), fs.m)), ops) {
      RunRefines(states, ops);
    }
    if old(Zeroed(fs.V(), fs.m)) {
      RunKeepsZeroed(states, ops, |ops|);
    }
  }

  lemma StartRun(fs: Driver.Fat32)
    requires fs.Shape()
    ensures LedTo(fs, [StateOf(fs)], [])
  {
    hide Did;
    RunNone(StateOf(fs));
  }

  lemma RunLed(fs: Driver.Fat32, states: seq<State>, ops: seq<Op>)
    requires fs.Shape() && LedTo(fs, states, ops)
    ensures Run(states, ops) && |states| == |ops| + 1 && states[|ops|] == StateOf(fs)
  {
    hide Did;
    RunShape(states, ops);
  }
}
