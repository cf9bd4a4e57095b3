/** A client of the heap: any sequence of requests and frees, with the backward links as the source leaves them. */
module HeapClient {
  import opened KernelHeap

  lemma AllocSizes(cs: seq<Cell>, i: nat, size: nat, align: nat)
    requires align > 0 && i <= |cs|
    ensures i < |cs| ==>
      |AllocAt(cs, i, size, align)| == |cs| + (if Splits(cs[i], size, align) then 1 else 0)
  {
  }

  function Act(s: Linking, op: Op, relink: bool): (r: Linking)
    requires |s.cells| == |s.links|
    ensures |r.cells| == |r.links|
  {
    match op
    case Allocate(size, align) =>
      if align > 0 then
        AllocSizes(s.cells, FirstFit(s.cells, size, align, 0), size, align);
        Requested(s, size, align, relink)
      else s
    case Release(address) => Released(s, address)
  }

  function Acts(s: Linking, ops: seq<Op>, relink: bool): Linking
    requires |s.cells| == |s.links|
    decreases |ops|
  {
    if ops == [] then s else Acts(Act(s, ops[0], relink), ops[1..], relink)
  }

  /** What the caller is given: the address or NULL for a request, nothing for a free. */
  function Answer(s: Linking, op: Op): nat {
    if op.Allocate? && op.align > 0 then Result(s.cells, op.size, op.align) else 0
  }

  function Answers(s: Linking, ops: seq<Op>, relink: bool): seq<nat>
    requires |s.cells| == |s.links|
    decreases |ops|
  {
    if ops == [] then [] else [Answer(s, ops[0])] + Answers(Act(s, ops[0], relink), ops[1..], relink)
  }

  /** No free on the way follows a link out of the list. */
  predicate AllTraceable(s: Linking, ops: seq<Op>, relink: bool)
    requires |s.cells| == |s.links|
    decreases |ops|
  {
    ops == []
    || ((ops[0].Release? ==> Traceable(s, ops[0].address)) && AllTraceable(Act(s, ops[0], relink), ops[1..], relink))
  }

  // ---------- straight links ----------

  /** No request on the way splits a block in front of another one. */
  predicate NeverInside(cs: seq<Cell>, ops: seq<Op>)
    decreases |ops|
  {
    ops == []
    || ((ops[0].Allocate? && ops[0].align > 0 ==> !InsideSplit(cs, ops[0].size, ops[0].align))
        && NeverInside(Apply(cs, ops[0]), ops[1..]))
  }

  /** With the repaired split, and with the one of the source as long as no block is split in front of another, the
      links stay straight and the layout is that of a run on the layout alone. */
  lemma {:induction false} StraightRun(s: Linking, ops: seq<Op>, relink: bool)
    requires s.links == Straight(|s.cells|) && (relink || NeverInside(s.cells, ops))
    ensures var cs' := Run(s.cells, ops); Acts(s, ops, relink) == Linking(cs', Straight(|cs'|))
    ensures AllTraceable(s, ops, relink)
    decreases |ops|
  {
    hide Requested, Released, Alloc, Kfreed, InsideSplit, Traceable;
    if ops != [] {
      match ops[0] {
        case Allocate(size, align) => if align > 0 { RequestedStraight(s, size, align, relink); }
        case Release(address) => ReleasedStraight(s, address);
      }
      StraightRun(Act(s, ops[0], relink), ops[1..], relink);
    }
  }

  // ---------- any links ----------

  /** Every link followed by a free on the way is right, or nothing is merged along it. */
  predicate AllWell(s: Linking, ops: seq<Op>, relink: bool)
    requires |s.cells| == |s.links|
    decreases |ops|
  {
    ops == []
    || ((ops[0].Release? ==> FreesWell(s, ops[0].address)) && AllWell(Act(s, ops[0], relink), ops[1..], relink))
  }

  /** The region is partitioned at every point of the run. */
  ghost predicate AlwaysTidy(s: Linking, lo: nat, hi: nat, ops: seq<Op>, relink: bool)
    requires |s.cells| == |s.links|
    decreases |ops|
  {
    Tidy(s.cells, lo, hi) && (ops == [] || AlwaysTidy(Act(s, ops[0], relink), lo, hi, ops[1..], relink))
  }

  lemma ActMatched(s: Linking, op: Op, relink: bool)
    requires Matched(s)
    ensures Matched(Act(s, op, relink))
  {
    hide Requested, Released, Matched;
    match op
    case Allocate(size, align) => if align > 0 { RequestedMatched(s, size, align, relink); }
    case Release(address) => ReleasedMatched(s, address);
  }

  lemma ActTidy(s: Linking, lo: nat, hi: nat, op: Op, relink: bool)
    requires Matched(s) && Tidy(s.cells, lo, hi) && (op.Release? ==> Traceable(s, op.address))
    ensures Tidy(Act(s, op, relink).cells, lo, hi) <==> (op.Release? ==> FreesWell(s, op.address))
    ensures (op.Release? ==> FreesWell(s, op.address)) ==> Act(s, op, relink).cells == Apply(s.cells, op)
  {
    hide Requested, Released, Alloc, Kfreed, Tidy, FreesWell, Traceable, Trailing;
    match op
    case Allocate(size, align) =>
      if align > 0 {
        RequestedMatched(s, size, align, relink);
        ApplyTidy(s.cells, lo, hi, op);
      }
    case Release(address) => ReleasedTidy(s, lo, hi, address);
  }

  /** The heap stays partitioned all the way exactly when no free merges along a wrong link, and is then what the run
      makes of the layout alone. */
  lemma {:induction false} RunTidyIff(s: Linking, lo: nat, hi: nat, ops: seq<Op>, relink: bool)
    requires Matched(s) && Tidy(s.cells, lo, hi) && AllTraceable(s, ops, relink)
    ensures AlwaysTidy(s, lo, hi, ops, relink) <==> AllWell(s, ops, relink)
    ensures AllWell(s, ops, relink) ==> Acts(s, ops, relink).cells == Run(s.cells, ops)
    decreases |ops|
  {
    hide Act, Tidy, FreesWell, Apply, Trailing, Traceable;
    if ops != [] {
      var s' := Act(s, ops[0], relink);
      ActMatched(s, ops[0], relink);
      ActTidy(s, lo, hi, ops[0], relink);
      if Tidy(s'.cells, lo, hi) { RunTidyIff(s', lo, hi, ops[1..], relink); }
    }
  }

  // ---------- the client ----------

  predicate Asked(op: Op) { op.Allocate? ==> 0 < op.align < WORD && op.size < WORD }

  /** A fresh heap keeps nothing that could be freed. */
  lemma NothingToFree(h: Heap, address: nat)
    requires h.Shape() && h.blocks == []
    ensures Released(h.BaseList(), address) == h.BaseList() && Released(h.List(), address) == h.List()
    ensures Traceable(h.List(), address)
  {
  }

  method ServeOne(h: Heap, op: Op, relink: bool) returns (answer: nat)
    requires h.Shape() && Asked(op) && (op.Release? ==> Traceable(h.BaseList(), op.address))
    modifies h, h.blocks
    ensures h.Shape() && h.BaseList() == Act(old(h.BaseList()), op, relink)
    ensures answer == Answer(old(h.BaseList()), op)
    ensures forall k {:trigger h.blocks[k]} :: 0 <= k < |h.blocks| ==>
      fresh(h.blocks[k]) || h.blocks[k] in old(h.blocks)
  {
    hide Requested, Released, Result, Traceable;
    answer := 0;
    match op
    case Allocate(size, align) => answer := h.KmallocAligned(size, align, relink);
    case Release(address) =>
      if h.start_block == null {
        NothingToFree(h, address);
        return;
      }
      h.Kfree(address);
  }

  /** `t` and the answers so far are those of the first `i` operations on `s`. */
  ghost predicate Served(s: Linking, t: Linking, ops: seq<Op>, i: nat, answers: seq<nat>, relink: bool) {
    && Matched(s) && Matched(t) && i <= |ops| && AllTraceable(t, ops[i..], relink)
    && Acts(t, ops[i..], relink) == Acts(s, ops, relink)
    && answers + Answers(t, ops[i..], relink) == Answers(s, ops, relink)
  }

  lemma ServedNone(s: Linking, ops: seq<Op>, relink: bool)
    requires Matched(s) && AllTraceable(s, ops, relink)
    ensures Served(s, s, ops, 0, [], relink)
  {
    assert ops[0..] == ops;
  }

  lemma ServedNext(s: Linking, t: Linking, ops: seq<Op>, i: nat, answers: seq<nat>, relink: bool)
    requires Served(s, t, ops, i, answers, relink) && i < |ops|
    ensures |t.cells| == |t.links| && (ops[i].Release? ==> Traceable(t, ops[i].address))
    ensures Served(s, Act(t, ops[i], relink), ops, i + 1, answers + [Answer(t, ops[i])], relink)
  {
    hide Act, Matched, Traceable, Answer;
    assert ops[i] == ops[i..][0] && ops[i..][1..] == ops[i + 1..];
    ServedSizes(s, t, ops, i, answers, relink);
    ActMatched(t, ops[i], relink);
  }

  lemma ServedSizes(s: Linking, t: Linking, ops: seq<Op>, i: nat, answers: seq<nat>, relink: bool)
    requires Served(s, t, ops, i, answers, relink)
    ensures |s.cells| == |s.links| && |t.cells| == |t.links|
  {
  }

  lemma ServedAll(s: Linking, t: Linking, ops: seq<Op>, answers: seq<nat>, relink: bool)
    requires Served(s, t, ops, |ops|, answers, relink)
    ensures |s.cells| == |s.links| && t == Acts(s, ops, relink) && answers == Answers(s, ops, relink)
  {
    assert ops[|ops|..] == [];
  }

  /** Whatever is asked of the heap, the list becomes what the run makes of it. */
  method Serve(h: Heap, ops: seq<Op>, relink: bool) returns (answers: seq<nat>)
    requires h.Shape() && (forall op <- ops :: Asked(op)) && AllTraceable(h.BaseList(), ops, relink)
    modifies h, h.blocks
    ensures h.Shape() && h.BaseList() == Acts(old(h.BaseList()), ops, relink)
    ensures answers == Answers(old(h.BaseList()), ops, relink)
    ensures old(h.Valid()) && AllWell(old(h.BaseList()), ops, relink) ==>
      h.Valid() && h.Base() == Run(old(h.Base()), ops)
  {
    ghost var s := h.BaseList();
    h.BaseMatched();
    BaseIs(h);
    if h.Valid() { RunTidyIff(s, h.start, h.Limit(), ops, relink); RunTidy(s.cells, h.start, h.Limit(), ops); }
    hide *;
    answers := [];
    ServedNone(s, ops, relink);
    var i := 0;
    while i < |ops|
      invariant i <= |ops| && h.Shape() && Served(s, h.BaseList(), ops, i, answers, relink)
      invariant forall k {:trigger h.blocks[k]} :: 0 <= k < |h.blocks| ==>
        fresh(h.blocks[k]) || h.blocks[k] in old(h.blocks)
    {
      ServedNext(s, h.BaseList(), ops, i, answers, relink);
      var answer := ServeOne(h, ops[i], relink);
      answers := answers + [answer];
      i := i + 1;
    }
    ServedAll(s, h.BaseList(), ops, answers, relink);
    BaseIs(h);
  }

  lemma BaseIs(h: Heap)
    requires h.Shape()
    ensures h.Base() == h.BaseList().cells
    ensures h.Valid() <==> Tidy(h.Base(), h.start, h.Limit())
  {
  }

  /** With the repaired split, or when no request splits a block in front of another, that is the run on the layout
      alone, and the links stay right. */
  method ServeStraight(h: Heap, ops: seq<Op>, relink: bool) returns (answers: seq<nat>)
    requires h.Valid() && (h.blocks == [] || h.Backward()) && forall op <- ops :: Asked(op)
    requires relink || NeverInside(h.Base(), ops)
    modifies h, h.blocks
    ensures h.Valid() && (h.blocks == [] || h.Backward()) && h.Base() == Run(old(h.Base()), ops)
    ensures answers == Answers(old(h.BaseList()), ops, relink)
  {
    ghost var s := h.BaseList();
    h.BaseMatched();
    BaseIs(h);
    StraightRun(s, ops, relink);
    RunTidy(s.cells, h.start, h.Limit(), ops);
    assert h.Shape();
    hide *;
    answers := Serve(h, ops, relink);
    BaseIs(h);
    StraightIs(h);
  }

  lemma StraightIs(h: Heap)
    requires h.Shape()
    ensures h.BaseList().links == Straight(|h.BaseList().cells|) ==> h.blocks == [] || h.Backward()
  {
    h.BackwardIs();
  }

  // ---------- a run of the source ----------

  /** Two requests; the first is freed and asked for in two smaller parts; the first part and the second request are
      freed, which merges over the second part; and one more request. */
  function OverlapOps(lo: nat): seq<Op> {
    [Allocate(0x400, 4), Allocate(0x100, 4), Release(lo + 0x14), Allocate(0x100, 4), Allocate(0x100, 4),
     Release(lo + 0x14), Release(lo + 0x428), Allocate(0x400, 4)]
  }

  /** What the calls are answered. The fifth is never freed. */
  function OverlapAnswers(lo: nat): seq<nat> {
    [lo + 0x14, lo + 0x428, 0, lo + 0x14, lo + 0x128, 0, 0, lo + 0x14]
  }

  lemma NoPadding(addr: nat, size: nat)
    requires addr % 4 == 0 && SMALLEST_BLOCK <= size < WORD
    ensures Padding(addr + HEADER, 4) == 0 && Needed(addr, size, 4) == size
  {
  }

  /** A request answered by block `i`. */
  lemma AskedOf(s: Linking, i: nat, size: nat)
    requires i < |s.cells| == |s.links| && SMALLEST_BLOCK <= size < WORD
    requires s.cells[i].Free? && s.cells[i].addr % 4 == 0 && s.cells[i].size > size + HEADER + SMALLEST_BLOCK
    requires End(s.cells[i]) < WORD && forall j :: 0 <= j < i ==> s.cells[j].Live?
    ensures var c := s.cells[i];
      Act(s, Allocate(size, 4), false) ==
        Linking(s.cells[..i] + [Live(c.addr, size, c.addr + HEADER, size, 4),
                                Free(c.addr + HEADER + size, c.size - size - HEADER)] + s.cells[i + 1..],
                CutLinks(s.links, i, false))
      && Answer(s, Allocate(size, 4)) == c.addr + HEADER
  {
    hide CutLinks;
    NoPadding(s.cells[i].addr, size);
    AllocIs(s.cells, size, 4, i);
  }

  /** A free of block `i`. */
  lemma FreedOf(s: Linking, i: nat)
    requires i < |s.cells| == |s.links| && s.cells[i].Live? && !s.links[i].Gone?
    requires forall j :: 0 <= j < i && s.cells[j].Live? ==> s.cells[j].data != s.cells[i].data
    ensures Act(s, Release(s.cells[i].data), false) == ReleaseAt(s, i) && Traceable(s, s.cells[i].data)
    ensures Answer(s, Release(s.cells[i].data)) == 0
  {
    hide ReleaseAt;
    ReleasedIs(s, s.cells[i].data, i);
  }

  function At(addr: nat, size: nat): Cell { Live(addr, size, addr + HEADER, size, 4) }

  /** One operation of a run. */
  lemma Step(s: Linking, ops: seq<Op>, k: nat, s': Linking, answer: nat)
    requires k < |ops| && |s.cells| == |s.links| && Act(s, ops[k], false) == s' && Answer(s, ops[k]) == answer
    requires ops[k].Release? ==> Traceable(s, ops[k].address)
    ensures |s'.cells| == |s'.links|
    ensures Acts(s, ops[k..], false) == Acts(s', ops[k + 1..], false)
    ensures Answers(s, ops[k..], false) == [answer] + Answers(s', ops[k + 1..], false)
    ensures AllTraceable(s', ops[k + 1..], false) ==> AllTraceable(s, ops[k..], false)
  {
    hide Act, Answer, Traceable;
    assert ops[k..][0] == ops[k] && ops[k..][1..] == ops[k + 1..];
  }

  /** The lists the run goes through. */
  function Stage(lo: nat, k: nat): Linking {
    var a, b, c := lo, lo + 0x414, lo + 0x528;
    if k == 0 then Linking([Free(a, 0xFEC)], [Null])
    else if k == 1 then Linking([At(a, 0x400), Free(b, 0xBD8)], [Null, To(0)])
    else if k == 2 then Linking([At(a, 0x400), At(b, 0x100), Free(c, 0xAC4)], [Null, To(0), To(1)])
    else if k == 3 then Linking([Free(a, 0x400), At(b, 0x100), Free(c, 0xAC4)], [Null, To(0), To(1)])
    else if k == 4 then
      Linking([At(a, 0x100), Free(lo + 0x114, 0x2EC), At(b, 0x100), Free(c, 0xAC4)], [Null, To(0), To(0), To(2)])
    else if k == 5 then
      Linking([At(a, 0x100), At(lo + 0x114, 0x100), Free(lo + 0x228, 0x1D8), At(b, 0x100), Free(c, 0xAC4)],
              [Null, To(0), To(1), To(0), To(3)])
    else if k == 6 then
      Linking([Free(a, 0x100), At(lo + 0x114, 0x100), Free(lo + 0x228, 0x1D8), At(b, 0x100), Free(c, 0xAC4)],
              [Null, To(0), To(1), To(0), To(3)])
    else if k == 7 then Linking([Free(a, 0xCEC)], [Null])
    else Linking([At(a, 0x400), Free(b, 0x8D8)], [Null, To(0)])
  }

  /** Stage `k` leads to the next one. */
  ghost predicate Leads(lo: nat, k: nat)
    requires k < 8
  {
    var s, op := Stage(lo, k), OverlapOps(lo)[k];
    |s.cells| == |s.links| && Act(s, op, false) == Stage(lo, k + 1) && Answer(s, op) == OverlapAnswers(lo)[k]
    && (op.Release? ==> Traceable(s, op.address))
  }

  ghost predicate Placed(lo: nat) { 0 < lo && lo % 4 == 0 && lo + 0x1000 < WORD }

  lemma Request0(lo: nat)
    requires Placed(lo)
    ensures Leads(lo, 0)
  {
    hide Act, Answer;
    AskedOf(Stage(lo, 0), 0, 0x400);
  }

  lemma Request1(lo: nat)
    requires Placed(lo)
    ensures Leads(lo, 1)
  {
    hide Act, Answer;
    AskedOf(Stage(lo, 1), 1, 0x100);
  }

  lemma Free2(lo: nat)
    requires Placed(lo)
    ensures Leads(lo, 2)
  {
    hide Act, Answer, Traceable;
    FreedOf(Stage(lo, 2), 0);
  }

  lemma Request3(lo: nat)
    requires Placed(lo)
    ensures Leads(lo, 3)
  {
    hide Act, Answer;
    AskedOf(Stage(lo, 3), 0, 0x100);
  }

  lemma Request4(lo: nat)
    requires Placed(lo)
    ensures Leads(lo, 4)
  {
    hide Act, Answer;
    AskedOf(Stage(lo, 4), 1, 0x100);
  }

  lemma Free5(lo: nat)
    requires Placed(lo)
    ensures Leads(lo, 5)
  {
    hide Act, Answer, Traceable;
    FreedOf(Stage(lo, 5), 0);
  }

  lemma Free6(lo: nat)
    requires Placed(lo)
    ensures Leads(lo, 6)
  {
    hide Act, Answer, Traceable;
    FreedOf(Stage(lo, 6), 3);
  }

  lemma Request7(lo: nat)
    requires Placed(lo)
    ensures Leads(lo, 7)
  {
    hide Act, Answer;
    AskedOf(Stage(lo, 7), 0, 0x400);
  }

  lemma StageNext(lo: nat, k: nat)
    requires Placed(lo) && k < 8
    ensures Leads(lo, k)
  {
    hide Leads, Placed;
    match k
    case 0 => Request0(lo);
    case 1 => Request1(lo);
    case 2 => Free2(lo);
    case 3 => Request3(lo);
    case 4 => Request4(lo);
    case 5 => Free5(lo);
    case 6 => Free6(lo);
    case 7 => Request7(lo);
  }

  lemma {:induction false} StagesFrom(lo: nat, k: nat)
    requires Placed(lo) && k <= 8
    ensures var s, ops := Stage(lo, k), OverlapOps(lo)[k..];
      |s.cells| == |s.links| && AllTraceable(s, ops, false) && Acts(s, ops, false) == Stage(lo, 8)
      && Answers(s, ops, false) == OverlapAnswers(lo)[k..]
    decreases 8 - k
  {
    hide Act, Answer, Traceable, Placed;
    if k < 8 {
      StageNext(lo, k);
      StagesFrom(lo, k + 1);
      hide Stage, Acts, Answers, AllTraceable;
      Step(Stage(lo, k), OverlapOps(lo), k, Stage(lo, k + 1), OverlapAnswers(lo)[k]);
      assert OverlapAnswers(lo)[k..] == [OverlapAnswers(lo)[k]] + OverlapAnswers(lo)[k + 1..];
    } else {
      assert OverlapOps(lo)[k..] == [] && OverlapAnswers(lo)[k..] == [];
    }
  }

  /** Request `j` was answered with memory over that of request `i`, which was not freed in between. */
  predicate Overlaps(ops: seq<Op>, answers: seq<nat>, i: nat, j: nat) {
    && i < j < |ops| == |answers| && ops[i].Allocate? && ops[j].Allocate? && answers[i] != 0 && answers[j] != 0
    && (forall k :: i < k < j ==> ops[k] != Release(answers[i]))
    && answers[j] < answers[i] + ops[i].size && answers[i] < answers[j] + ops[j].size
  }

  /** The source hands out 0x400 bytes over 0x100 bytes that are still in use, and has lost part of the region. */
  method Overlap(h: Heap) returns (answers: seq<nat>)
    requires h.Shape() && h.blocks == [] && h.start % 4 == 0 && h.Limit() == h.start + 0x1000 < WORD
    modifies h, h.blocks
    ensures answers == OverlapAnswers(h.start) && !h.Valid()
    ensures Overlaps(OverlapOps(h.start), answers, 4, 7)
  {
    var lo := h.start;
    assert OverlapOps(lo)[0..] == OverlapOps(lo) && OverlapAnswers(lo)[0..] == OverlapAnswers(lo);
    StagesFrom(lo, 0);
    assert h.BaseList() == Stage(lo, 0);
    Untidy(lo);
    OverlapAsked(lo);
    assert Overlaps(OverlapOps(lo), OverlapAnswers(lo), 4, 7);
    hide *;
    answers := Serve(h, OverlapOps(lo), false);
    BaseIs(h);
  }

  lemma OverlapAsked(lo: nat)
    ensures forall op <- OverlapOps(lo) :: Asked(op)
  {
  }

  lemma Untidy(lo: nat)
    ensures !Tidy(Stage(lo, 8).cells, lo, lo + 0x1000)
  {
    assert End(Stage(lo, 8).cells[1]) == lo + 0xD00;
  }
}
