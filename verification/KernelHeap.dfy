/** The kernel allocator (src/kernel/c/memory/kmalloc.c): first fit with splitting and two-sided merging
    over a doubly linked list of blocks laid out in memory. */
module KernelHeap {
  const HEADER := 20          // sizeof(struct Block)
  const SMALLEST_BLOCK := 0x100
  const BITS_IN_BYTE := 8
  const WORD := 0x1_0000_0000 // sizes and addresses are 32 bits wide

  // ---------- the layout as a value ----------

  /** One block: its header address and payload size, and for a live block the result handed out with the
      size and alignment it was asked for. */
  datatype Cell = Free(addr: nat, size: nat) | Live(addr: nat, size: nat, data: nat, want: nat, align: nat)

  /** The blocks follow each other without gaps and fill the region. */
  ghost predicate Tiles(cs: seq<Cell>, lo: nat, hi: nat) {
    && cs != [] && cs[0].addr == lo
    && (forall i {:trigger Follows(cs, i)} :: 0 <= i < |cs| - 1 ==> Follows(cs, i))
    && End(cs[|cs| - 1]) == hi
  }

  predicate Follows(cs: seq<Cell>, i: nat)
    requires i + 1 < |cs|
  {
    cs[i + 1].addr == End(cs[i])
  }

  function End(c: Cell): nat { c.addr + HEADER + c.size }

  /** A live result is aligned and lies, with the size asked for, inside its own block. */
  predicate Holds(c: Cell) {
    c.Live? ==> c.addr + HEADER <= c.data && c.data + c.want <= End(c) && c.align > 0 && c.data % c.align == 0
  }

  predicate Apart(cs: seq<Cell>, i: nat)
    requires i + 1 < |cs|
  {
    cs[i].Live? || cs[i + 1].Live?
  }

  /** The region is partitioned, and no two neighbours are free. */
  ghost predicate Tidy(cs: seq<Cell>, lo: nat, hi: nat) {
    && Tiles(cs, lo, hi)
    && (forall i {:trigger Apart(cs, i)} :: 0 <= i < |cs| - 1 ==> Apart(cs, i))
  }

  /** Live results are inside their blocks. */
  ghost predicate Held(cs: seq<Cell>) {
    forall i {:trigger cs[i]} :: 0 <= i < |cs| ==> Holds(cs[i])
  }

  ghost predicate Good(cs: seq<Cell>, lo: nat, hi: nat) { Tidy(cs, lo, hi) && Held(cs) }

  lemma {:induction false} Ordered(cs: seq<Cell>, lo: nat, hi: nat, i: nat, j: nat)
    requires Tiles(cs, lo, hi) && i < j < |cs|
    ensures End(cs[i]) <= cs[j].addr
    decreases j - i
  {
    assert Follows(cs, j - 1);
    if i + 1 < j { Ordered(cs, lo, hi, i, j - 1); }
  }

  /** Live results never overlap, and all lie inside the region. */
  lemma LiveDisjoint(cs: seq<Cell>, lo: nat, hi: nat, i: nat, j: nat)
    requires Good(cs, lo, hi) && i < |cs| && j < |cs| && i != j && cs[i].Live? && cs[j].Live?
    ensures cs[i].data + cs[i].want <= cs[j].data || cs[j].data + cs[j].want <= cs[i].data
    ensures cs[i].data != cs[j].data
    ensures lo <= cs[i].data && cs[i].data + cs[i].want <= hi
  {
    assert Holds(cs[i]) && Holds(cs[j]);
    if i < j { Ordered(cs, lo, hi, i, j); } else { Ordered(cs, lo, hi, j, i); }
    if i > 0 { Ordered(cs, lo, hi, 0, i); }
    if i < |cs| - 1 { Ordered(cs, lo, hi, i, |cs| - 1); }
  }

  /** When nothing is live the heap is one block again, of the size it started with. */
  lemma AllFreeIsOne(cs: seq<Cell>, lo: nat, hi: nat)
    requires Tidy(cs, lo, hi) && forall i :: 0 <= i < |cs| ==> cs[i].Free?
    ensures lo + HEADER <= hi && cs == [Free(lo, hi - lo - HEADER)]
  {
    if |cs| > 1 { FirstTwo(cs, lo, hi); }
  }

  lemma FirstTwo(cs: seq<Cell>, lo: nat, hi: nat)
    requires Tidy(cs, lo, hi) && |cs| > 1
    ensures cs[0].Live? || cs[1].Live?
  {
    assert Apart(cs, 0);
  }

  // ---------- allocation ----------

  function Padding(base: nat, align: nat): nat
    requires align > 0
  {
    if base % align == 0 then 0 else align - base % align
  }

  lemma PaddingAligns(base: nat, align: nat)
    requires align > 0
    ensures (base + Padding(base, align)) % align == 0 && Padding(base, align) < align
  {
    var q, r := base / align, base % align;
    assert base == q * align + r;
    if r != 0 {
      assert base + Padding(base, align) == (q + 1) * align;
      ModMultiple(q + 1, align);
    }
  }

  lemma {:induction false} ModMultiple(k: nat, n: nat)
    requires n > 0
    ensures (k * n) % n == 0
  {
    if k > 0 {
      ModMultiple(k - 1, n);
      assert k * n == (k - 1) * n + n;
      var q := ((k - 1) * n) / n;
      assert k * n == (q + 1) * n;
      Quotient(k * n, q + 1, n);
    }
  }

  lemma Quotient(a: nat, q: nat, n: nat)
    requires n > 0 && a == q * n
    ensures a % n == 0
  {
    var d, r := a / n, a % n;
    assert a == d * n + r;
    assert (q - d) * n == r;
    if q > d { MulAtLeast(q - d, n); }
    if q < d {
      MulAtLeast(d - q, n);
    }
  }

  lemma MulAtLeast(k: nat, n: nat)
    requires k >= 1
    ensures k * n >= n && (0 - k) * n <= 0 - n
  {
    assert k * n == (k - 1) * n + n;
  }

  function Max(a: nat, b: nat): nat { if a > b then a else b }

  /** The payload an allocation takes from a block at `addr`: the request and its padding in 32 bits, at least the
      minimum. */
  function Needed(addr: nat, size: nat, align: nat): nat
    requires align > 0
  {
    Max((size + Padding(addr + HEADER, align)) % WORD, SMALLEST_BLOCK)
  }

  /** The padded request fits 32 bits. */
  predicate NoWrap(c: Cell, size: nat, align: nat)
    requires align > 0
  {
    size + Padding(c.addr + HEADER, align) < WORD
  }

  predicate Fits(c: Cell, size: nat, align: nat)
    requires align > 0
  {
    c.Free? && c.size >= Needed(c.addr, size, align)
  }

  /** Index of the first block that fits; the number of blocks if none. */
  function FirstFit(cs: seq<Cell>, size: nat, align: nat, i: nat): (r: nat)
    requires align > 0 && i <= |cs|
    ensures i <= r <= |cs| && (r < |cs| ==> Fits(cs[r], size, align))
    ensures forall j :: i <= j < r ==> !Fits(cs[j], size, align)
    decreases |cs| - i
  {
    if i == |cs| || Fits(cs[i], size, align) then i else FirstFit(cs, size, align, i + 1)
  }

  /** A block is split only when what is left over is worth a block. */
  predicate Splits(c: Cell, size: nat, align: nat)
    requires align > 0
  {
    Fits(c, size, align) && c.size - Needed(c.addr, size, align) > HEADER + SMALLEST_BLOCK
  }

  function Taken(c: Cell, size: nat, align: nat): Cell
    requires align > 0
  {
    var data := (c.addr + HEADER + Padding(c.addr + HEADER, align)) % WORD;
    Live(c.addr, if Splits(c, size, align) then Needed(c.addr, size, align) else c.size, data, size, align)
  }

  function Rest(c: Cell, size: nat, align: nat): seq<Cell>
    requires align > 0
  {
    var n := Needed(c.addr, size, align);
    if Splits(c, size, align) then [Free(c.addr + HEADER + n, c.size - n - HEADER)] else []
  }

  /** The layout after allocating from block `i`. */
  function AllocAt(cs: seq<Cell>, i: nat, size: nat, align: nat): seq<Cell>
    requires align > 0 && i < |cs|
  {
    cs[..i] + [Taken(cs[i], size, align)] + Rest(cs[i], size, align) + cs[i + 1..]
  }

  function Alloc(cs: seq<Cell>, size: nat, align: nat): seq<Cell>
    requires align > 0
  {
    var i := FirstFit(cs, size, align, 0);
    if i == |cs| then cs else AllocAt(cs, i, size, align)
  }

  /** What the caller gets: the aligned address inside the first fitting block, or NULL. */
  function Result(cs: seq<Cell>, size: nat, align: nat): nat
    requires align > 0
  {
    var i := FirstFit(cs, size, align, 0);
    if i == |cs| then 0 else Taken(cs[i], size, align).data
  }

  lemma AllocIs(cs: seq<Cell>, size: nat, align: nat, i: nat)
    requires align > 0 && i <= |cs| && (forall j :: 0 <= j < i ==> !Fits(cs[j], size, align))
    requires i < |cs| ==> Fits(cs[i], size, align)
    ensures FirstFit(cs, size, align, 0) == i
    ensures Alloc(cs, size, align) == if i == |cs| then cs else AllocAt(cs, i, size, align)
    ensures Result(cs, size, align) == if i == |cs| then 0 else Taken(cs[i], size, align).data
  {
  }

  lemma AllocIndex(cs: seq<Cell>, i: nat, size: nat, align: nat)
    requires align > 0 && i < |cs|
    ensures var cs', k := AllocAt(cs, i, size, align), |Rest(cs[i], size, align)|;
      k <= 1 && |cs'| == |cs| + k && cs'[i] == Taken(cs[i], size, align)
      && (k == 1 ==> cs'[i + 1] == Rest(cs[i], size, align)[0])
      && (forall j {:trigger cs'[j]} :: 0 <= j < i ==> cs'[j] == cs[j])
      && (forall j {:trigger cs'[j]} :: i + k < j < |cs'| ==> cs'[j] == cs[j - k])
  {
  }

  /** Block `i` split after `n` bytes of payload. */
  function Cut(cs: seq<Cell>, i: nat, n: nat): seq<Cell>
    requires i < |cs| && cs[i].size >= n + HEADER
  {
    cs[..i] + [Free(cs[i].addr, n), Free(cs[i].addr + HEADER + n, cs[i].size - n - HEADER)] + cs[i + 1..]
  }

  lemma CutAt(cs: seq<Cell>, i: nat, n: nat)
    requires i < |cs| && cs[i].size >= n + HEADER
    ensures var cs' := Cut(cs, i, n);
      |cs'| == |cs| + 1 && cs'[i] == Free(cs[i].addr, n)
      && cs'[i + 1] == Free(cs[i].addr + HEADER + n, cs[i].size - n - HEADER)
      && forall j {:trigger cs'[j]} :: 0 <= j < |cs'| && j != i && j != i + 1 ==>
         cs'[j] == if j < i then cs[j] else cs[j - 1]
  {
  }

  lemma CutMarked(cs: seq<Cell>, i: nat, size: nat, align: nat)
    requires align > 0 && i < |cs| && Fits(cs[i], size, align)
    ensures var n := Needed(cs[i].addr, size, align);
      (if Splits(cs[i], size, align) then Cut(cs, i, n) else cs)[i := Taken(cs[i], size, align)] ==
        AllocAt(cs, i, size, align)
  {
  }

  /** An allocation that succeeds keeps the partition. */
  lemma AllocTidy(cs: seq<Cell>, lo: nat, hi: nat, i: nat, size: nat, align: nat)
    requires Tidy(cs, lo, hi) && align > 0 && i < |cs| && Fits(cs[i], size, align)
    ensures Tidy(AllocAt(cs, i, size, align), lo, hi)
  {
    hide Fits, Needed, Padding, AllocAt;
    var cs', k := AllocAt(cs, i, size, align), |Rest(cs[i], size, align)|;
    AllocIndex(cs, i, size, align);
    TakenFits(cs[i], size, align);
    forall j | 0 <= j < |cs'| - 1
      ensures Follows(cs', j) && Apart(cs', j)
    {
      if j < i {
        assert Follows(cs, j) && Apart(cs, j);
      } else if j >= i + k {
        assert Follows(cs, j - k) && Apart(cs, j - k);
      }
    }
  }

  /** And the block handed out holds its request exactly when the padded request does not wrap in 32 bits. */
  lemma AllocHeld(cs: seq<Cell>, lo: nat, hi: nat, i: nat, size: nat, align: nat)
    requires Good(cs, lo, hi) && hi < WORD && 0 < align < WORD && i < |cs| && Fits(cs[i], size, align)
    ensures Held(AllocAt(cs, i, size, align)) <==> NoWrap(cs[i], size, align)
  {
    hide Fits, Needed, Padding, AllocAt, NoWrap, Taken, Holds;
    var cs', k := AllocAt(cs, i, size, align), |Rest(cs[i], size, align)|;
    AllocIndex(cs, i, size, align);
    EndBound(cs, lo, hi, i);
    TakenHolds(cs[i], size, align);
    FreeHolds(cs[i], size, align);
    assert cs'[i] == Taken(cs[i], size, align);
    forall j | 0 <= j < |cs'| && j != i
      ensures Holds(cs'[j])
    {
      if j < i { assert Holds(cs[j]); } else if j > i + k { assert Holds(cs[j - k]); }
    }
  }

  /** NULL, or a block that holds its request. */
  predicate HandsOut(cs: seq<Cell>, size: nat, align: nat)
    requires align > 0
  {
    var i := FirstFit(cs, size, align, 0);
    i < |cs| ==> NoWrap(cs[i], size, align)
  }

  lemma AllocHolds(cs: seq<Cell>, lo: nat, hi: nat, size: nat, align: nat)
    requires Good(cs, lo, hi) && hi < WORD && 0 < align < WORD
    ensures Held(Alloc(cs, size, align)) <==> HandsOut(cs, size, align)
  {
    var i := FirstFit(cs, size, align, 0);
    if i < |cs| { AllocHeld(cs, lo, hi, i, size, align); }
  }

  lemma EndBound(cs: seq<Cell>, lo: nat, hi: nat, i: nat)
    requires Tiles(cs, lo, hi) && i < |cs|
    ensures End(cs[i]) <= hi
  {
    if i < |cs| - 1 { Ordered(cs, lo, hi, i, |cs| - 1); }
  }

  lemma FreeHolds(c: Cell, size: nat, align: nat)
    requires align > 0
    ensures forall r <- Rest(c, size, align) :: Holds(r)
  {
  }

  lemma TakenHolds(c: Cell, size: nat, align: nat)
    requires 0 < align < WORD && Fits(c, size, align) && End(c) < WORD
    ensures Holds(Taken(c, size, align)) <==> NoWrap(c, size, align)
  {
    hide Padding;
    var a, p := c.addr + HEADER, Padding(c.addr + HEADER, align);
    PaddingAligns(a, align);
    InWord(a + p);
    InWord(size + p);
    TakenData(c, size, align);
  }

  lemma TakenData(c: Cell, size: nat, align: nat)
    requires 0 < align < WORD && Fits(c, size, align) && End(c) < WORD
    ensures var a, p, t := c.addr + HEADER, Padding(c.addr + HEADER, align), Taken(c, size, align);
      t == Live(c.addr, t.size, (a + p) % WORD, size, align) && End(t) <= End(c) && t.size >= (size + p) % WORD
      && (size + p < WORD ==> a + p + size <= End(t))
  {
    hide Padding;
    if size + Padding(c.addr + HEADER, align) < WORD { InWord(size + Padding(c.addr + HEADER, align)); }
  }

  lemma InWord(x: nat)
    ensures x < WORD ==> x % WORD == x
    ensures WORD <= x < 2 * WORD ==> x % WORD == x - WORD
  {
  }

  lemma TakenFits(c: Cell, size: nat, align: nat)
    requires align > 0 && Fits(c, size, align)
    ensures var t, r := Taken(c, size, align), Rest(c, size, align);
      t.Live? && t.addr == c.addr && c.Free?
      && if r == [] then End(t) == End(c) else |r| == 1 && r[0].Free? && r[0].addr == End(t) && End(r[0]) == End(c)
  {
  }

  /** A request that leaves room for its alignment never wraps. */
  lemma SmallNoWrap(c: Cell, size: nat, align: nat)
    requires align > 0 && size + align <= WORD
    ensures NoWrap(c, size, align)
  {
    PaddingAligns(c.addr + HEADER, align);
  }

  // ---------- freeing ----------

  function Merge(a: Cell, b: Cell): Cell { Free(a.addr, a.size + HEADER + b.size) }

  function Joined(cs: seq<Cell>, i: nat): seq<Cell>
    requires i + 1 < |cs|
  {
    cs[..i] + [Merge(cs[i], cs[i + 1])] + cs[i + 2..]
  }

  /** Merge block `i` with a free successor. */
  function MergeNext(cs: seq<Cell>, i: nat): seq<Cell>
    requires i < |cs|
  {
    if i + 1 < |cs| && cs[i + 1].Free? then Joined(cs, i) else cs
  }

  /** Merge block `i` into a free predecessor. */
  function MergePrev(cs: seq<Cell>, i: nat): seq<Cell>
    requires i < |cs|
  {
    if i > 0 && cs[i - 1].Free? then Joined(cs, i - 1) else cs
  }

  function FreeAt(cs: seq<Cell>, i: nat): seq<Cell>
    requires i < |cs|
  {
    MergePrev(MergeNext(cs[i := Free(cs[i].addr, cs[i].size)], i), i)
  }

  /** Index of the live block with this result; the number of blocks if none. */
  function FindLive(cs: seq<Cell>, address: nat, i: nat): (r: nat)
    requires i <= |cs|
    ensures i <= r <= |cs| && (r < |cs| ==> cs[r].Live? && cs[r].data == address)
    ensures forall j :: i <= j < r ==> !(cs[j].Live? && cs[j].data == address)
    decreases |cs| - i
  {
    if i == |cs| || (cs[i].Live? && cs[i].data == address) then i else FindLive(cs, address, i + 1)
  }

  lemma KfreedIs(cs: seq<Cell>, address: nat, i: nat)
    requires i <= |cs| && (forall j :: 0 <= j < i ==> !(cs[j].Live? && cs[j].data == address))
    requires i < |cs| ==> cs[i].Live? && cs[i].data == address
    ensures Kfreed(cs, address) == if i == |cs| then cs else FreeAt(cs, i)
  {
  }

  function Kfreed(cs: seq<Cell>, address: nat): seq<Cell> {
    var i := FindLive(cs, address, 0);
    if i == |cs| then cs else FreeAt(cs, i)
  }

  /** `Tidy` except that block `i` may have free neighbours. */
  ghost predicate TidyBut(cs: seq<Cell>, lo: nat, hi: nat, i: nat, next: bool) {
    && Tiles(cs, lo, hi) && i < |cs| && cs[i].Free?
    && (forall j {:trigger Apart(cs, j)} :: 0 <= j < |cs| - 1 && j + 1 != i && (next || j != i) ==> Apart(cs, j))
  }

  lemma MergeNextTidy(cs: seq<Cell>, lo: nat, hi: nat, i: nat)
    requires TidyBut(cs, lo, hi, i, false)
    ensures TidyBut(MergeNext(cs, i), lo, hi, i, true)
  {
    var cs' := MergeNext(cs, i);
    if i + 1 < |cs| && cs[i + 1].Free? {
      assert Follows(cs, i);
      assert forall j {:trigger cs'[j]} :: 0 <= j < |cs'| ==>
        cs'[j] == if j < i then cs[j] else if j == i then Merge(cs[i], cs[i + 1]) else cs[j + 1];
      forall j | 0 <= j < |cs'| - 1
        ensures Follows(cs', j) && (j + 1 != i ==> Apart(cs', j))
      {
        if j < i {
          assert Follows(cs, j) && (j + 1 != i ==> Apart(cs, j));
        } else {
          assert Follows(cs, j + 1) && Apart(cs, j + 1);
        }
      }
    } else {
      forall j | 0 <= j < |cs| - 1 && j + 1 != i
        ensures Apart(cs, j)
      {
      }
    }
  }

  lemma MergePrevTidy(cs: seq<Cell>, lo: nat, hi: nat, i: nat)
    requires TidyBut(cs, lo, hi, i, true)
    ensures Tidy(MergePrev(cs, i), lo, hi)
  {
    var cs' := MergePrev(cs, i);
    if i > 0 && cs[i - 1].Free? {
      assert Follows(cs, i - 1);
      assert forall j {:trigger cs'[j]} :: 0 <= j < |cs'| ==>
        cs'[j] == if j < i - 1 then cs[j] else if j == i - 1 then Merge(cs[i - 1], cs[i]) else cs[j + 1];
      forall j | 0 <= j < |cs'| - 1
        ensures Follows(cs', j) && Apart(cs', j)
      {
        if j < i - 1 {
          assert Follows(cs, j) && Apart(cs, j);
        } else {
          assert Follows(cs, j + 1) && Apart(cs, j + 1);
        }
      }
    } else {
      forall j | 0 <= j < |cs| - 1
        ensures Apart(cs, j)
      {
      }
    }
  }

  /** Freeing a live block keeps the partition. */
  lemma FreeTidy(cs: seq<Cell>, lo: nat, hi: nat, i: nat)
    requires Tidy(cs, lo, hi) && i < |cs| && cs[i].Live?
    ensures Tidy(FreeAt(cs, i), lo, hi)
  {
    var cs1 := cs[i := Free(cs[i].addr, cs[i].size)];
    forall j | 0 <= j < |cs| - 1
      ensures Follows(cs1, j) && (j + 1 != i && j != i ==> Apart(cs1, j))
    {
      assert Follows(cs, j) && Apart(cs, j);
    }
    MergeNextTidy(cs1, lo, hi, i);
    MergePrevTidy(MergeNext(cs1, i), lo, hi, i);
  }

  // ---------- what is live ----------

  ghost function Lives(cs: seq<Cell>): set<Cell> { set c | c in cs && c.Live? }

  lemma LivesConcat(a: seq<Cell>, b: seq<Cell>)
    ensures Lives(a + b) == Lives(a) + Lives(b)
  {
  }

  lemma LivesParts(cs: seq<Cell>, i: nat, j: nat)
    requires i <= j <= |cs|
    ensures Lives(cs) == Lives(cs[..i]) + Lives(cs[i..j]) + Lives(cs[j..])
  {
    assert cs == cs[..i] + cs[i..j] + cs[j..];
  }

  /** An allocation adds its block to the live ones and disturbs no other. */
  lemma AllocLives(cs: seq<Cell>, size: nat, align: nat)
    requires align > 0 && FirstFit(cs, size, align, 0) < |cs|
    ensures Lives(Alloc(cs, size, align)) == Lives(cs) + {Taken(cs[FirstFit(cs, size, align, 0)], size, align)}
  {
    var i := FirstFit(cs, size, align, 0);
    var t, rest := Taken(cs[i], size, align), Rest(cs[i], size, align);
    LivesParts(cs, i, i + 1);
    LivesConcat(cs[..i] + [t] + rest, cs[i + 1..]);
    LivesConcat(cs[..i] + [t], rest);
    LivesConcat(cs[..i], [t]);
    assert Lives(rest) == {} && Lives([t]) == {t} && Lives(cs[i..i + 1]) == {};
  }

  lemma JoinedLives(cs: seq<Cell>, i: nat)
    requires i + 1 < |cs| && cs[i].Free? && cs[i + 1].Free?
    ensures Lives(Joined(cs, i)) == Lives(cs)
  {
    var m := [Merge(cs[i], cs[i + 1])];
    LivesParts(cs, i, i + 2);
    LivesConcat(cs[..i] + m, cs[i + 2..]);
    LivesConcat(cs[..i], m);
    assert Lives(m) == {} && Lives(cs[i..i + 2]) == {};
  }

  /** Whatever is freed, nothing becomes live or changes while it is. */
  lemma FreeAtLives(cs: seq<Cell>, i: nat)
    requires i < |cs|
    ensures Lives(FreeAt(cs, i)) == Lives(cs[i := Free(cs[i].addr, cs[i].size)]) <= Lives(cs)
  {
    var cs1 := cs[i := Free(cs[i].addr, cs[i].size)];
    var cs2 := MergeNext(cs1, i);
    if i + 1 < |cs1| && cs1[i + 1].Free? { JoinedLives(cs1, i); }
    assert cs2[i].Free?;
    if i > 0 && cs2[i - 1].Free? { JoinedLives(cs2, i - 1); }
    forall c | c in Lives(cs1)
      ensures c in Lives(cs)
    {
      var j :| 0 <= j < |cs1| && cs1[j] == c;
      assert cs[j] == c;
    }
  }

  lemma FreeHeld(cs: seq<Cell>, i: nat)
    requires Held(cs) && i < |cs|
    ensures Held(FreeAt(cs, i))
  {
    hide FreeAt, Holds;
    FreeAtLives(cs, i);
    var cs' := FreeAt(cs, i);
    forall j | 0 <= j < |cs'|
      ensures Holds(cs'[j])
    {
      if cs'[j].Live? {
        assert cs'[j] in Lives(cs');
      } else {
        FreeCellHolds(cs'[j]);
      }
    }
  }

  lemma KfreedHolds(cs: seq<Cell>, address: nat)
    requires Held(cs)
    ensures Held(Kfreed(cs, address))
  {
    var i := FindLive(cs, address, 0);
    if i < |cs| { FreeHeld(cs, i); }
  }

  lemma FreeCellHolds(c: Cell)
    requires c.Free?
    ensures Holds(c)
  {
  }

  /** A free takes away exactly the block of that address. */
  lemma KfreedLives(cs: seq<Cell>, lo: nat, hi: nat, address: nat)
    requires Good(cs, lo, hi)
    ensures Lives(Kfreed(cs, address)) == set c | c in Lives(cs) && c.data != address
  {
    var i := FindLive(cs, address, 0);
    if i < |cs| {
      var cs1 := cs[i := Free(cs[i].addr, cs[i].size)];
      FreeAtLives(cs, i);
      hide Good, FreeAt;
      forall c | c in Lives(cs1)
        ensures c in Lives(cs) && c.data != address
      {
        var j :| 0 <= j < |cs1| && cs1[j] == c;
        LiveDisjoint(cs, lo, hi, i, j);
      }
      forall c | c in Lives(cs) && c.data != address
        ensures c in Lives(cs1)
      {
        var j :| 0 <= j < |cs| && cs[j] == c;
        assert cs1[j] == c;
      }
    } else {
      forall c | c in Lives(cs)
        ensures c.data != address
      {
        var j :| 0 <= j < |cs| && cs[j] == c;
      }
    }
  }

  // ---------- backward links ----------

  /** Where the `prev` field of a block leads: nowhere, to a block of the list, or to one that has left it. */
  datatype Link = Null | To(at: nat) | Gone

  /** The list as the source keeps it: the blocks in forward order, and their backward links. */
  datatype Linking = Linking(cells: seq<Cell>, links: seq<Link>)

  /** Backward links lead backward, and only the first block has none. */
  ghost predicate Matched(s: Linking) { |s.cells| == |s.links| && Trailing(s.links) }

  ghost predicate Trailing(ls: seq<Link>) {
    forall k {:trigger ls[k]} :: 0 <= k < |ls| ==> (ls[k].Null? <==> k == 0) && (ls[k].To? ==> ls[k].at < k)
  }

  /** The links as they should be: each to the block in front. */
  function Straight(n: nat): (ls: seq<Link>)
    ensures |ls| == n && forall k {:trigger ls[k]} :: 0 <= k < n ==> ls[k] == if k == 0 then Null else To(k - 1)
  {
    seq(n, k requires 0 <= k < n => if k == 0 then Null else To(k - 1))
  }

  /** The same link when a block is inserted behind block `i`. */
  function Past(l: Link, i: nat): Link { if l.To? && l.at > i then To(l.at + 1) else l }

  /** The links after block `i` was split; with `relink` the old successor was told. */
  function CutLinks(ls: seq<Link>, i: nat, relink: bool): (r: seq<Link>)
    requires i < |ls|
    ensures |r| == |ls| + 1 && forall k {:trigger r[k]} :: 0 <= k < |r| ==> r[k] == CutLink(ls, i, relink, k)
  {
    seq(|ls| + 1, k requires 0 <= k <= |ls| => CutLink(ls, i, relink, k))
  }

  function CutLink(ls: seq<Link>, i: nat, relink: bool, k: nat): Link
    requires i < |ls| && k <= |ls|
  {
    if k <= i then Past(ls[k], i)
    else if k == i + 1 then To(i)
    else if relink && k == i + 2 then To(i + 1)
    else Past(ls[k - 1], i)
  }

  /** The same link when the blocks behind `j` up to `i` have left the list. */
  function Without(l: Link, j: nat, i: nat): Link
    requires j <= i
  {
    if l.To? && l.at > i then To(l.at - (i - j)) else if l.To? && l.at > j then Gone else l
  }

  /** The links after block `j` absorbed block `i`: the one behind `i` is told, and no other. */
  function JoinLinks(ls: seq<Link>, j: nat, i: nat): (r: seq<Link>)
    requires j < i < |ls|
    ensures |r| == |ls| - (i - j) && forall k {:trigger r[k]} :: 0 <= k < |r| ==> r[k] == JoinLink(ls, j, i, k)
  {
    seq(|ls| - (i - j), k requires 0 <= k < |ls| - (i - j) => JoinLink(ls, j, i, k))
  }

  function JoinLink(ls: seq<Link>, j: nat, i: nat, k: nat): Link
    requires j < i < |ls| && k < |ls| - (i - j)
  {
    if k <= j then Without(ls[k], j, i) else if k == j + 1 then To(j) else Without(ls[k + (i - j)], j, i)
  }

  /** Block `j` absorbs block `i`, and whatever lay between them is in the list no longer. */
  function JoinAt(s: Linking, j: nat, i: nat): (r: Linking)
    requires j < i < |s.cells| == |s.links|
    ensures |r.cells| == |r.links| == |s.cells| - (i - j)
  {
    Linking(s.cells[..j] + [Merge(s.cells[j], s.cells[i])] + s.cells[i + 1..], JoinLinks(s.links, j, i))
  }

  function ReleaseNext(s: Linking, i: nat): (r: Linking)
    requires i < |s.cells| == |s.links|
    ensures i < |r.cells| == |r.links|
  {
    if i + 1 < |s.cells| && s.cells[i + 1].Free? then JoinAt(s, i, i + 1) else s
  }

  /** Block `i` is merged into the block its backward link leads to, if that is free. */
  function ReleasePrev(s: Linking, i: nat): Linking
    requires i < |s.cells| == |s.links|
  {
    var l := s.links[i];
    if l.To? && l.at < i && s.cells[l.at].Free? then JoinAt(s, l.at, i) else s
  }

  /** `kfree` of block `i`, whatever its backward link is. */
  function ReleaseAt(s: Linking, i: nat): Linking
    requires i < |s.cells| == |s.links|
  {
    ReleasePrev(ReleaseNext(s.(cells := s.cells[i := Free(s.cells[i].addr, s.cells[i].size)]), i), i)
  }

  function Released(s: Linking, address: nat): Linking
    requires |s.cells| == |s.links|
  {
    var i := FindLive(s.cells, address, 0);
    if i == |s.cells| then s else ReleaseAt(s, i)
  }

  /** The block to be freed has a backward link to a block of the list, or none. */
  predicate Traceable(s: Linking, address: nat)
    requires |s.cells| == |s.links|
  {
    var i := FindLive(s.cells, address, 0);
    i < |s.cells| ==> !s.links[i].Gone?
  }

  function Requested(s: Linking, size: nat, align: nat, relink: bool): Linking
    requires align > 0 && |s.cells| == |s.links|
  {
    var i := FirstFit(s.cells, size, align, 0);
    if i == |s.cells| then s
    else Linking(AllocAt(s.cells, i, size, align),
                 if Splits(s.cells[i], size, align) then CutLinks(s.links, i, relink) else s.links)
  }

  lemma CutTrailing(ls: seq<Link>, i: nat, relink: bool)
    requires Trailing(ls) && i < |ls|
    ensures Trailing(CutLinks(ls, i, relink))
  {
  }

  lemma JoinTrailing(ls: seq<Link>, j: nat, i: nat)
    requires Trailing(ls) && j < i < |ls|
    ensures Trailing(JoinLinks(ls, j, i))
  {
  }

  lemma RequestedMatched(s: Linking, size: nat, align: nat, relink: bool)
    requires Matched(s) && align > 0
    ensures Matched(Requested(s, size, align, relink))
    ensures Requested(s, size, align, relink).cells == Alloc(s.cells, size, align)
  {
    var i := FirstFit(s.cells, size, align, 0);
    if i < |s.cells| {
      AllocIndex(s.cells, i, size, align);
      if Splits(s.cells[i], size, align) { CutTrailing(s.links, i, relink); }
    }
  }

  lemma ReleaseMatched(s: Linking, i: nat)
    requires Matched(s) && i < |s.cells|
    ensures Matched(ReleaseAt(s, i))
  {
    hide Trailing, JoinLinks;
    var s1 := s.(cells := s.cells[i := Free(s.cells[i].addr, s.cells[i].size)]);
    if i + 1 < |s1.cells| && s1.cells[i + 1].Free? { JoinTrailing(s1.links, i, i + 1); }
    var s2, l := ReleaseNext(s1, i), ReleaseNext(s1, i).links[i];
    if l.To? && l.at < i && s2.cells[l.at].Free? { JoinTrailing(s2.links, l.at, i); }
  }

  /** A split leaves the links straight exactly when the successor is told or there is none. */
  lemma CutStraight(n: nat, i: nat, relink: bool)
    requires i < n
    ensures CutLinks(Straight(n), i, relink) == Straight(n + 1) <==> relink || i + 1 == n
  {
    var ls := CutLinks(Straight(n), i, relink);
    if relink || i + 1 == n {
      forall k | 0 <= k <= n
        ensures ls[k] == Straight(n + 1)[k]
      {
      }
    } else {
      assert ls[i + 2] == To(i) && Straight(n + 1)[i + 2] == To(i + 1);
    }
  }

  lemma JoinStraight(n: nat, j: nat)
    requires j + 1 < n
    ensures JoinLinks(Straight(n), j, j + 1) == Straight(n - 1)
  {
  }

  /** With straight links, freeing is merging with the neighbours. */
  lemma ReleaseStraight(s: Linking, i: nat)
    requires i < |s.cells| && s.links == Straight(|s.cells|)
    ensures var cs' := FreeAt(s.cells, i); ReleaseAt(s, i) == Linking(cs', Straight(|cs'|))
  {
    hide JoinLinks;
    var s1 := s.(cells := s.cells[i := Free(s.cells[i].addr, s.cells[i].size)]);
    if i + 1 < |s1.cells| { JoinStraight(|s1.cells|, i); }
    var s2 := ReleaseNext(s1, i);
    assert s2 == Linking(MergeNext(s1.cells, i), Straight(|s2.cells|));
    if i > 0 { JoinStraight(|s2.cells|, i - 1); }
  }

  lemma ReleasedStraight(s: Linking, address: nat)
    requires s.links == Straight(|s.cells|)
    ensures var cs' := Kfreed(s.cells, address); Released(s, address) == Linking(cs', Straight(|cs'|))
    ensures Traceable(s, address)
  {
    hide ReleaseAt, FreeAt;
    var i := FindLive(s.cells, address, 0);
    if i < |s.cells| { ReleaseStraight(s, i); }
  }

  lemma RequestedStraight(s: Linking, size: nat, align: nat, relink: bool)
    requires align > 0 && s.links == Straight(|s.cells|)
    ensures var s' := Requested(s, size, align, relink);
      s'.cells == Alloc(s.cells, size, align)
      && (s'.links == Straight(|s'.cells|) <==> relink || !InsideSplit(s.cells, size, align))
  {
    var i := FirstFit(s.cells, size, align, 0);
    if i < |s.cells| {
      AllocIndex(s.cells, i, size, align);
      CutStraight(|s.cells|, i, relink);
    }
  }

  /** The backward link of block `i` is right, or wrong without a consequence: neither the block it leads to nor the one
      in front is free. */
  predicate Harmless(s: Linking, i: nat)
    requires i < |s.cells| == |s.links|
  {
    i == 0 || s.links[i] == To(i - 1)
    || (s.links[i].To? && s.links[i].at < i && s.cells[s.links[i].at].Live? && s.cells[i - 1].Live?)
  }

  /** Freeing keeps the region partitioned exactly when the backward link followed is harmless. */
  lemma ReleaseTidy(s: Linking, lo: nat, hi: nat, i: nat)
    requires Matched(s) && Tidy(s.cells, lo, hi) && i < |s.cells| && s.cells[i].Live? && !s.links[i].Gone?
    ensures Tidy(ReleaseAt(s, i).cells, lo, hi) <==> Harmless(s, i)
    ensures Harmless(s, i) ==> ReleaseAt(s, i).cells == FreeAt(s.cells, i)
  {
    var s1 := s.(cells := s.cells[i := Free(s.cells[i].addr, s.cells[i].size)]);
    var s2 := ReleaseNext(s1, i);
    ReleaseNextIs(s1, i);
    FreeTidy(s.cells, lo, hi, i);
    if !Harmless(s, i) {
      ReleasedTiles(s, lo, hi, i);
      assert s2.links[i] == s.links[i];
      var at := s.links[i].at;
      if s.cells[at].Free? {
        JoinLoses(s2, lo, hi, at, i);
      } else {
        assert !Apart(s2.cells, i - 1);
      }
    }
  }

  /** The same for an address. */
  predicate FreesWell(s: Linking, address: nat)
    requires |s.cells| == |s.links|
  {
    var i := FindLive(s.cells, address, 0);
    i < |s.cells| ==> Harmless(s, i)
  }

  lemma ReleasedTidy(s: Linking, lo: nat, hi: nat, address: nat)
    requires Matched(s) && Tidy(s.cells, lo, hi) && Traceable(s, address)
    ensures Tidy(Released(s, address).cells, lo, hi) <==> FreesWell(s, address)
    ensures FreesWell(s, address) ==> Released(s, address).cells == Kfreed(s.cells, address)
  {
    var i := FindLive(s.cells, address, 0);
    if i < |s.cells| { ReleaseTidy(s, lo, hi, i); }
  }

  lemma NoneFreed(s: Linking, address: nat)
    requires |s.cells| == |s.links|
    ensures |s.cells| == 0 ==> Released(s, address) == s && FreesWell(s, address)
    ensures |s.cells| > 0 ==> |Released(s, address).cells| > 0
  {
  }

  lemma StraightFreesWell(s: Linking, address: nat)
    requires |s.cells| == |s.links|
    ensures s.links == Straight(|s.cells|) ==> FreesWell(s, address)
  {
  }

  lemma ReleasedMatched(s: Linking, address: nat)
    requires Matched(s)
    ensures Matched(Released(s, address))
  {
    var i := FindLive(s.cells, address, 0);
    if i < |s.cells| { ReleaseMatched(s, i); }
  }

  lemma ReleasedIs(s: Linking, address: nat, i: nat)
    requires i <= |s.cells| == |s.links|
    requires forall j :: 0 <= j < i ==> !(s.cells[j].Live? && s.cells[j].data == address)
    requires i < |s.cells| ==> s.cells[i].Live? && s.cells[i].data == address
    ensures FindLive(s.cells, address, 0) == i
    ensures Released(s, address) == if i == |s.cells| then s else ReleaseAt(s, i)
    ensures Traceable(s, address) <==> i == |s.cells| || !s.links[i].Gone?
  {
  }

  lemma ReleaseNextIs(s: Linking, i: nat)
    requires Matched(s) && i < |s.cells|
    ensures var s2 := ReleaseNext(s, i);
      s2.cells == MergeNext(s.cells, i) && s2.links[i] == s.links[i]
      && (forall k {:trigger s2.cells[k]} :: 0 <= k < i ==> s2.cells[k] == s.cells[k])
      && (s.cells[i].Free? ==> s2.cells[i].Free?)
  {
  }

  lemma ReleasedTiles(s: Linking, lo: nat, hi: nat, i: nat)
    requires Matched(s) && Tidy(s.cells, lo, hi) && i < |s.cells| && s.cells[i].Live?
    ensures Tiles(ReleaseNext(s.(cells := s.cells[i := Free(s.cells[i].addr, s.cells[i].size)]), i).cells, lo, hi)
  {
    var cs1 := s.cells[i := Free(s.cells[i].addr, s.cells[i].size)];
    forall j | 0 <= j < |cs1| - 1
      ensures Follows(cs1, j) && (j + 1 != i && j != i ==> Apart(cs1, j))
    {
      assert Follows(s.cells, j) && Apart(s.cells, j);
    }
    MergeNextTidy(cs1, lo, hi, i);
    ReleaseNextIs(s.(cells := cs1), i);
  }

  /** Merging over a block in between loses bytes of the region. */
  lemma JoinLoses(s: Linking, lo: nat, hi: nat, j: nat, i: nat)
    requires Matched(s) && Tiles(s.cells, lo, hi) && j + 1 < i < |s.cells|
    ensures !Tiles(JoinAt(s, j, i).cells, lo, hi)
  {
    var cs, cs' := s.cells, JoinAt(s, j, i).cells;
    Ordered(cs, lo, hi, j, i - 1);
    Ordered(cs, lo, hi, i - 1, i);
    assert cs'[j] == Merge(cs[j], cs[i]) && End(cs'[j]) < End(cs[i]);
    if i + 1 < |cs| {
      assert Follows(cs, i) && cs'[j + 1] == cs[i + 1];
      assert !Follows(cs', j);
    }
  }

  // ---------- the limits of the source ----------

  /** The split that breaks a back link is within reach: free the first of two blocks and ask for less. */
  lemma InsideSplitReached(lo: nat, hi: nat)
    requires 0 < lo && lo % 4 == 0 && hi - lo == 0x1000 && hi < WORD
    ensures var ops := [Allocate(0x400, 4), Allocate(0x100, 4), Release(lo + HEADER)];
      Tidy(Run(Fresh(lo, hi), ops), lo, hi) && InsideSplit(Run(Fresh(lo, hi), ops), 0x100, 4)
  {
    var a, b := lo, lo + HEADER + 0x400;
    var s0 := Fresh(lo, hi);
    var s1 := [Live(a, 0x400, a + HEADER, 0x400, 4), Free(b, 0x1000 - 0x400 - 2 * HEADER)];
    var s2 := [s1[0], Live(b, 0x100, b + HEADER, 0x100, 4), Free(b + HEADER + 0x100, 0x1000 - 0x500 - 3 * HEADER)];
    var s3 := s2[0 := Free(a, 0x400)];
    assert Apply(s0, Allocate(0x400, 4)) == s1 by { AllocIs(s0, 0x400, 4, 0); }
    assert Apply(s1, Allocate(0x100, 4)) == s2 by { AllocIs(s1, 0x100, 4, 1); }
    assert Apply(s2, Release(lo + HEADER)) == s3 by { KfreedIs(s2, lo + HEADER, 0); }
    var ops := [Allocate(0x400, 4), Allocate(0x100, 4), Release(lo + HEADER)];
    assert Run(s0, ops) == Run(s1, ops[1..]) == Run(s2, ops[1..][1..]) == Run(s3, ops[1..][1..][1..]) == s3;
    RunTidy(s0, lo, hi, ops);
    AllocIs(s3, 0x100, 4, 0);
  }

  /** A request that wraps is within reach too: an empty heap answers it with its smallest block. */
  lemma WrappedRequestAnswered(lo: nat, hi: nat)
    requires 0 < lo && lo % 0x1000 == 0 && lo + HEADER + SMALLEST_BLOCK <= hi < WORD
    ensures var size := WORD - (0x1000 - HEADER);
      FirstFit(Fresh(lo, hi), size, 0x1000, 0) == 0 && !NoWrap(Fresh(lo, hi)[0], size, 0x1000)
      && Good(Fresh(lo, hi), lo, hi) && !Held(Alloc(Fresh(lo, hi), size, 0x1000))
  {
    var size, c := WORD - (0x1000 - HEADER), Free(lo, hi - lo - HEADER);
    assert Padding(lo + HEADER, 0x1000) == 0x1000 - HEADER;
    AllocIs(Fresh(lo, hi), size, 0x1000, 0);
    AllocHeld(Fresh(lo, hi), lo, hi, 0, size, 0x1000);
  }

  // ---------- runs ----------

  datatype Op = Allocate(size: nat, align: nat) | Release(address: nat)

  function Apply(cs: seq<Cell>, op: Op): seq<Cell> {
    match op
    case Allocate(size, align) => if align > 0 then Alloc(cs, size, align) else cs
    case Release(address) => Kfreed(cs, address)
  }

  function Run(cs: seq<Cell>, ops: seq<Op>): seq<Cell>
    decreases |ops|
  {
    if ops == [] then cs else Run(Apply(cs, ops[0]), ops[1..])
  }

  /** Any interleaving of allocations and frees, with all backward links right, keeps the region exactly partitioned. */
  lemma {:induction false} RunTidy(cs: seq<Cell>, lo: nat, hi: nat, ops: seq<Op>)
    requires Tidy(cs, lo, hi)
    ensures Tidy(Run(cs, ops), lo, hi)
    decreases |ops|
  {
    if ops != [] {
      ApplyTidy(cs, lo, hi, ops[0]);
      RunTidy(Apply(cs, ops[0]), lo, hi, ops[1..]);
    }
  }

  lemma ApplyTidy(cs: seq<Cell>, lo: nat, hi: nat, op: Op)
    requires Tidy(cs, lo, hi)
    ensures Tidy(Apply(cs, op), lo, hi)
  {
    match op
    case Allocate(size, align) =>
      if align > 0 && FirstFit(cs, size, align, 0) < |cs| {
        AllocTidy(cs, lo, hi, FirstFit(cs, size, align, 0), size, align);
      }
    case Release(address) =>
      if FindLive(cs, address, 0) < |cs| {
        FreeTidy(cs, lo, hi, FindLive(cs, address, 0));
      }
  }

  /** The request does not wrap at the block it is given. */
  predicate Sane(cs: seq<Cell>, op: Op) {
    op.Allocate? && op.align > 0 ==> op.align < WORD && HandsOut(cs, op.size, op.align)
  }

  predicate AllSane(cs: seq<Cell>, ops: seq<Op>)
    decreases |ops|
  {
    ops == [] || (Sane(cs, ops[0]) && AllSane(Apply(cs, ops[0]), ops[1..]))
  }

  lemma ApplyGood(cs: seq<Cell>, lo: nat, hi: nat, op: Op)
    requires Good(cs, lo, hi) && hi < WORD && Sane(cs, op)
    ensures Good(Apply(cs, op), lo, hi)
  {
    ApplyTidy(cs, lo, hi, op);
    match op
    case Allocate(size, align) =>
      if align > 0 { AllocHolds(cs, lo, hi, size, align); }
    case Release(address) =>
      KfreedHolds(cs, address);
  }

  /** And, without a request that wraps, every live result inside its block. */
  lemma {:induction false} RunGood(cs: seq<Cell>, lo: nat, hi: nat, ops: seq<Op>)
    requires Good(cs, lo, hi) && hi < WORD && AllSane(cs, ops)
    ensures Good(Run(cs, ops), lo, hi)
    decreases |ops|
  {
    hide Good, Sane, Apply;
    if ops != [] {
      ApplyGood(cs, lo, hi, ops[0]);
      RunGood(Apply(cs, ops[0]), lo, hi, ops[1..]);
    }
  }

  /** Whatever happened in between, freeing everything in any order leaves the one block of the start. */
  lemma RunReturnsAll(lo: nat, hi: nat, ops: seq<Op>)
    requires lo + HEADER <= hi
    requires forall i :: 0 <= i < |Run(Fresh(lo, hi), ops)| ==> Run(Fresh(lo, hi), ops)[i].Free?
    ensures Run(Fresh(lo, hi), ops) == Fresh(lo, hi)
  {
    RunTidy(Fresh(lo, hi), lo, hi, ops);
    AllFreeIsOne(Run(Fresh(lo, hi), ops), lo, hi);
  }

  function Fresh(lo: nat, hi: nat): seq<Cell>
    requires lo + HEADER <= hi
  {
    [Free(lo, hi - lo - HEADER)]
  }

  /** A free right after a successful allocation restores the layout. */
  lemma FreeUndoesAlloc(cs: seq<Cell>, lo: nat, hi: nat, size: nat, align: nat)
    requires Good(cs, lo, hi) && hi < WORD && 0 < align < WORD && FirstFit(cs, size, align, 0) < |cs|
    requires NoWrap(cs[FirstFit(cs, size, align, 0)], size, align)
    ensures var i := FirstFit(cs, size, align, 0);
      Kfreed(Alloc(cs, size, align), Taken(cs[i], size, align).data) == cs
  {
    var i := FirstFit(cs, size, align, 0);
    hide Fits, Needed, Padding, Taken, Rest, Good, FirstFit, FindLive, FreeAt;
    var cs', t, rest := AllocAt(cs, i, size, align), Taken(cs[i], size, align), Rest(cs[i], size, align);
    AllocTidy(cs, lo, hi, i, size, align);
    AllocHeld(cs, lo, hi, i, size, align);
    TakenFits(cs[i], size, align);
    LiveNeighbours(cs, lo, hi, i);
    MergeBack(cs, cs', i, t, rest);
    FindLiveAt(cs', lo, hi, i);
  }

  /** With right links it restores them too, even when the allocation broke one. */
  lemma FreeUndoesRequest(s: Linking, lo: nat, hi: nat, size: nat, align: nat, relink: bool)
    requires Good(s.cells, lo, hi) && hi < WORD && 0 < align < WORD && FirstFit(s.cells, size, align, 0) < |s.cells|
    requires NoWrap(s.cells[FirstFit(s.cells, size, align, 0)], size, align) && s.links == Straight(|s.cells|)
    ensures var s' := Requested(s, size, align, relink);
      |s'.cells| == |s'.links| && Released(s', Result(s.cells, size, align)) == s
  {
    var cs, i := s.cells, FirstFit(s.cells, size, align, 0);
    var s' := Requested(s, size, align, relink);
    FreeUndoesAlloc(cs, lo, hi, size, align);
    AllocTidy(cs, lo, hi, i, size, align);
    AllocHeld(cs, lo, hi, i, size, align);
    RequestedMatched(s, size, align, relink);
    AllocIndex(cs, i, size, align);
    FindLiveAt(s'.cells, lo, hi, i);
    hide Good, Tidy, Fits, Needed, Padding, Alloc, AllocAt, FirstFit, FindLive, FreeAt, Taken, Matched, JoinLinks,
         CutLinks;
    RestLinks(s, lo, hi, i, size, align, relink);
    assert s'.links[i] == s.links[i];
    ReleaseTidy(s', lo, hi, i);
  }

  lemma RestLinks(s: Linking, lo: nat, hi: nat, i: nat, size: nat, align: nat, relink: bool)
    requires Tidy(s.cells, lo, hi) && align > 0 && i < |s.cells| && Fits(s.cells[i], size, align)
    requires s.links == Straight(|s.cells|)
    ensures var ls := if Splits(s.cells[i], size, align) then CutLinks(s.links, i, relink) else s.links;
      var s' := Linking(AllocAt(s.cells, i, size, align), ls);
      i < |s'.cells| == |s'.links| && s'.links[i] == s.links[i] && ReleaseAt(s', i).links == s.links
  {
    LiveNeighbours(s.cells, lo, hi, i);
    AllocIndex(s.cells, i, size, align);
    TakenFits(s.cells[i], size, align);
    JoinUndoesCut(|s.cells|, i, relink);
    hide Tidy, Needed, Padding, Taken, AllocAt, JoinLinks, CutLinks, Fits;
  }

  lemma JoinUndoesCut(n: nat, i: nat, relink: bool)
    requires i < n
    ensures var ls := CutLinks(Straight(n), i, relink);
      |ls| == n + 1 && ls[i] == Straight(n)[i] && JoinLinks(ls, i, i + 1) == Straight(n)
  {
  }

  lemma LiveNeighbours(cs: seq<Cell>, lo: nat, hi: nat, i: nat)
    requires Tidy(cs, lo, hi) && i < |cs| && cs[i].Free?
    ensures (i > 0 ==> cs[i - 1].Live?) && (i + 1 < |cs| ==> cs[i + 1].Live?)
  {
    if i > 0 { assert Apart(cs, i - 1); }
    if i + 1 < |cs| { assert Apart(cs, i); }
  }

  /** A live result identifies its block. */
  lemma FindLiveAt(cs: seq<Cell>, lo: nat, hi: nat, i: nat)
    requires Good(cs, lo, hi) && i < |cs| && cs[i].Live?
    ensures FindLive(cs, cs[i].data, 0) == i
  {
    hide Good;
    var r := FindLive(cs, cs[i].data, 0);
    if r != i { LiveDisjoint(cs, lo, hi, r, i); }
  }

  /** Freeing the taken part merges it with what was split off, and with nothing else. */
  lemma MergeBack(cs: seq<Cell>, cs': seq<Cell>, i: nat, t: Cell, rest: seq<Cell>)
    requires i < |cs| && cs' == cs[..i] + [t] + rest + cs[i + 1..] && cs[i].Free? && t.addr == cs[i].addr
    requires if rest == [] then End(t) == End(cs[i])
             else |rest| == 1 && rest[0].Free? && rest[0].addr == End(t) && End(rest[0]) == End(cs[i])
    requires (i > 0 ==> cs[i - 1].Live?) && (i + 1 < |cs| ==> cs[i + 1].Live?)
    ensures cs'[i] == t && FreeAt(cs', i) == cs
  {
    var cs1 := cs'[i := Free(t.addr, t.size)];
    var tail := cs[i + 1..];
    assert cs1[..i] == cs[..i];
    assert cs == cs[..i] + [cs[i]] + tail;
    if rest == [] {
      assert cs1 == cs[..i] + [cs[i]] + tail;
      assert MergeNext(cs1, i) == cs1;
    } else {
      assert cs1[i + 1] == rest[0] && cs1[i + 2..] == tail;
      assert Merge(cs1[i], cs1[i + 1]) == cs[i];
      assert MergeNext(cs1, i) == cs;
    }
  }

  // ---------- the linked blocks ----------

  /** `struct Block`. The request it serves is recorded for the specification only. */
  class Block {
    const addr: nat
    var size: nat
    var used: bool
    var prev: Block?
    var next: Block?
    var data: nat
    ghost var want: nat
    ghost var align: nat

    constructor (addr: nat, size: nat, prev: Block?, next: Block?)
      ensures this.addr == addr && this.size == size && !used && this.prev == prev && this.next == next
    {
      this.addr, this.size, this.used := addr, size, false;
      this.prev, this.next, this.data := prev, next, addr + HEADER;
      want, align := 0, 1;
    }
  }

  ghost function CellOf(b: Block): Cell
    reads b
  {
    if b.used then Live(b.addr, b.size, b.data, b.want, b.align) else Free(b.addr, b.size)
  }

  /** A split of the chosen block leaves a block behind whose successor must be told: the source does not. */
  predicate InsideSplit(cs: seq<Cell>, size: nat, align: nat)
    requires align > 0
  {
    var i := FirstFit(cs, size, align, 0);
    i + 1 < |cs| && Splits(cs[i], size, align)
  }

  lemma SplitDistinct(os: seq<Block>, bs: seq<Block>, i: nat)
    requires i < |os| && |bs| == |os| + 1 && bs == os[..i + 1] + [bs[i + 1]] + os[i + 1..] && bs[i + 1] !in os
    requires forall j, k :: 0 <= j < k < |os| ==> os[j] != os[k]
    ensures forall j, k :: 0 <= j < k < |bs| ==> bs[j] != bs[k]
  {
    assert forall k {:trigger bs[k]} :: 0 <= k < |bs| ==>
      bs[k] == if k <= i then os[k] else if k == i + 1 then bs[i + 1] else os[k - 1];
  }

  class Heap {
    const start: nat
    const end: nat
    var start_block: Block?
    ghost var blocks: seq<Block>
    ghost var links: seq<Link>

    /** The region the allocator uses: an eighth of the addresses it is given. */
    ghost predicate Region() {
      0 < start && start <= end <= WORD && (end - start) / BITS_IN_BYTE >= HEADER
    }

    ghost function Limit(): nat
      requires Region()
    {
      start + (end - start) / BITS_IN_BYTE
    }

    /** The forward list is the sequence of blocks. */
    ghost predicate Forward()
      reads this, blocks
    {
      && (forall i, j :: 0 <= i < j < |blocks| ==> blocks[i] != blocks[j])
      && start_block == (if blocks == [] then null else blocks[0])
      && (forall i {:trigger blocks[i].next} :: 0 <= i < |blocks| ==>
            blocks[i].next == if i + 1 < |blocks| then blocks[i + 1] else null)
    }

    /** Where the backward links lead. */
    ghost predicate Linked()
      reads this, blocks
    {
      && |links| == |blocks| && Trailing(links)
      && forall i {:trigger links[i]} {:trigger blocks[i]} :: 0 <= i < |blocks| ==> LeadsTo(blocks[i].prev, links[i])
    }

    ghost predicate LeadsTo(b: Block?, l: Link)
      reads this
    {
      match l
      case Null => b == null
      case To(j) => j < |blocks| && b == blocks[j]
      case Gone => b != null && b !in blocks
    }

    /** The backward links mirror the forward ones. */
    ghost predicate Backward()
      reads this, blocks
    {
      forall i {:trigger blocks[i].prev} :: 0 <= i < |blocks| ==>
        blocks[i].prev == if i > 0 then blocks[i - 1] else null
    }

    ghost function Layout(): (r: seq<Cell>)
      reads this, blocks
      ensures |r| == |blocks| && forall i {:trigger r[i]} :: 0 <= i < |blocks| ==> r[i] == CellOf(blocks[i])
    {
      seq(|blocks|, i requires 0 <= i < |blocks| reads this, blocks => CellOf(blocks[i]))
    }

    /** The layout an allocation starts from: the first one sets the heap up. */
    ghost function Base(): seq<Cell>
      requires Region()
      reads this, blocks
    {
      if blocks == [] then Fresh(start, Limit()) else Layout()
    }

    /** The list is a list, of whatever blocks. */
    ghost predicate Shape()
      reads this, blocks
    {
      Region() && Forward() && Linked()
    }

    /** And its blocks fill the region. */
    ghost predicate Valid()
      reads this, blocks
    {
      Shape() && Tidy(Base(), start, Limit())
    }

    ghost function List(): (s: Linking)
      reads this, blocks
      ensures |s.cells| == |blocks|
    {
      Linking(Layout(), links)
    }

    /** The list an allocation starts from. */
    ghost function BaseList(): (s: Linking)
      requires Region()
      reads this, blocks
    {
      Linking(Base(), if blocks == [] then [Null] else links)
    }

    lemma BackwardIs()
      requires Forward() && Linked()
      ensures Backward() <==> links == Straight(|blocks|)
    {
      if Backward() {
        forall k | 0 <= k < |blocks|
          ensures links[k] == Straight(|blocks|)[k]
        {
          assert LeadsTo(blocks[k].prev, links[k]);
        }
      }
      if links == Straight(|blocks|) {
        forall k | 0 <= k < |blocks|
          ensures blocks[k].prev == if k > 0 then blocks[k - 1] else null
        {
          assert LeadsTo(blocks[k].prev, links[k]);
        }
      }
    }

    constructor (start: nat, end: nat)
      ensures this.start == start && this.end == end && blocks == [] && links == [] && start_block == null
    {
      this.start, this.end := start, end;
      start_block, blocks, links := null, [], [];
    }

    /** Lines 33-41. */
    method Initialize()
      requires Region() && Forward() && start_block == null
      modifies this
      ensures Forward() && Linked() && links == [Null] && |blocks| == 1 && fresh(blocks[0])
      ensures Layout() == Fresh(start, Limit())
    {
      var heap_size := (end - start) / BITS_IN_BYTE;
      start_block := new Block(start, heap_size - HEADER, null, null);
      blocks, links := [start_block], [Null];
      assert Layout()[0] == Free(start, Limit() - start - HEADER);
    }

    /** Lines 57-68: cut the block after `aligned_size` bytes. With `relink` the old successor is also told
        about the new block, which the source omits. */
    method Split(current_block: Block, ghost i: nat, aligned_size: nat, relink: bool)
      requires Forward() && Linked() && i < |blocks| && blocks[i] == current_block && !current_block.used
      requires current_block.size - aligned_size > HEADER + SMALLEST_BLOCK
      modifies this`blocks, this`links, blocks
      ensures Forward() && Linked() && |blocks| == |old(blocks)| + 1 && blocks[i] == current_block
      ensures fresh(blocks[i + 1]) && forall b <- blocks :: b == blocks[i + 1] || b in old(blocks)
      ensures Layout() == Cut(old(Layout()), i, aligned_size) && links == CutLinks(old(links), i, relink)
      ensures old(Backward()) ==> (Backward() <==> relink || i + 1 == |old(blocks)|)
    {
      BackwardIs();
      LinkRest(current_block, i, aligned_size, relink);
      hide JustSplit, Forward, Linked, Backward, Layout, Cut;
      SplitLayout(i, aligned_size, relink);
      SplitForward(i, aligned_size, relink);
      SplitLinked(i, aligned_size, relink);
      SplitSizes(i, aligned_size, relink);
      BackwardIs();
      CutStraight(|old(blocks)|, i, relink);
    }

    method LinkRest(current_block: Block, ghost i: nat, aligned_size: nat, relink: bool)
      requires Forward() && i < |blocks| && blocks[i] == current_block && !current_block.used
      requires current_block.size - aligned_size > HEADER + SMALLEST_BLOCK && |links| == |blocks|
      modifies this`blocks, this`links, blocks
      ensures JustSplit(i, aligned_size, relink)
    {
      ghost var os := blocks;
      var unused_size := current_block.size - aligned_size;
      assert current_block == os[i];
      assert current_block.next == if i + 1 < |os| then os[i + 1] else null;
      assert forall k :: 0 <= k < |os| && k != i ==> os[k] != current_block;
      assert forall k :: 0 <= k < |os| && k != i + 1 && i + 1 < |os| ==> os[k] != os[i + 1];
      hide Forward, CutLinks;
      var new_block := new Block(current_block.addr + HEADER + aligned_size, unused_size - HEADER, current_block,
        current_block.next);
      if relink && new_block.next != null {
        new_block.next.prev := new_block;
      }
      current_block.next := new_block;
      current_block.size := aligned_size;
      blocks := os[..i + 1] + [new_block] + os[i + 1..];
      links := CutLinks(links, i, relink);
      assert blocks[i] == os[i] && blocks[i + 1] == new_block;
    }

    /** The list right after a split: only the cut block, the new one, and with `relink` the successor changed. */
    twostate predicate JustSplit(new i: nat, new n: nat, new relink: bool)
      reads *
    {
      var os := old(blocks);
      && i < |os| && |blocks| == |os| + 1 && blocks == os[..i + 1] + [blocks[i + 1]] + os[i + 1..]
      && start_block == old(start_block) && blocks[i + 1] !in os && fresh(blocks[i + 1])
      && i < |old(links)| && links == CutLinks(old(links), i, relink)
      && (forall k {:trigger os[k]} :: 0 <= k < |os| ==>
            old(allocated(os[k])) && (k != i ==> CellOf(os[k]) == old(CellOf(os[k]))))
      && CellOf(os[i]) == Free(os[i].addr, n) && old(os[i].size) >= n + HEADER
      && CellOf(blocks[i + 1]) == Free(os[i].addr + HEADER + n, old(os[i].size) - n - HEADER)
      && (forall k {:trigger os[k]} :: 0 <= k < |os| ==>
            os[k].prev == if relink && k == i + 1 then blocks[i + 1] else old(os[k].prev))
      && (forall k {:trigger os[k]} :: 0 <= k < |os| ==>
            os[k].next == if k == i then blocks[i + 1] else old(os[k].next))
      && blocks[i + 1].prev == os[i] && blocks[i + 1].next == old(os[i].next)
    }

    twostate lemma SplitLayout(new i: nat, new n: nat, new relink: bool)
      requires JustSplit(i, n, relink)
      ensures i < |old(Layout())| && old(Layout())[i].size >= n + HEADER && Layout() == Cut(old(Layout()), i, n)
    {
      var os, cs, cs' := old(blocks), old(Layout()), Layout();
      assert blocks[i] == os[i];
      forall k | 0 <= k < |cs'|
        ensures cs'[k] == Cut(cs, i, n)[k]
      {
        CutAt(cs, i, n);
        if k != i + 1 {
          assert blocks[k] == os[if k <= i then k else k - 1];
        }
      }
    }

    twostate lemma SplitAt(new i: nat, new n: nat, new relink: bool)
      requires JustSplit(i, n, relink)
      ensures forall k {:trigger blocks[k]} :: 0 <= k < |blocks| ==>
        blocks[k] == if k <= i then old(blocks)[k] else if k == i + 1 then blocks[i + 1] else old(blocks)[k - 1]
    {
    }

    twostate lemma SplitForward(new i: nat, new n: nat, new relink: bool)
      requires JustSplit(i, n, relink) && old(Forward())
      ensures Forward()
    {
      SplitDistinct(old(blocks), blocks, i);
      SplitNext(i, n, relink);
    }

    twostate lemma SplitNext(new i: nat, new n: nat, new relink: bool)
      requires JustSplit(i, n, relink) && old(Forward())
      ensures forall k {:trigger blocks[k].next} :: 0 <= k < |blocks| ==>
        blocks[k].next == if k + 1 < |blocks| then blocks[k + 1] else null
    {
      hide JustSplit, Forward;
      forall k | 0 <= k < |blocks|
        ensures blocks[k].next == if k + 1 < |blocks| then blocks[k + 1] else null
      {
        SplitNextAt(i, n, relink, k);
      }
    }

    twostate lemma SplitNextAt(new i: nat, new n: nat, new relink: bool, new k: nat)
      requires JustSplit(i, n, relink) && old(Forward()) && k < |blocks|
      ensures blocks[k].next == if k + 1 < |blocks| then blocks[k + 1] else null
    {
      var os := old(blocks);
      SplitAt(i, n, relink);
      hide CellOf, CutLinks;
      if k != i + 1 {
        var j := if k <= i then k else k - 1;
        assert old(os[j].next) == if j + 1 < |os| then os[j + 1] else null;
        assert blocks[k] == os[j];
      }
    }

    twostate lemma SplitSizes(new i: nat, new n: nat, new relink: bool)
      requires JustSplit(i, n, relink)
      ensures i < |old(blocks)| && |blocks| == |old(blocks)| + 1 && blocks[i] == old(blocks)[i] && fresh(blocks[i + 1])
      ensures forall b <- blocks :: b == blocks[i + 1] || b in old(blocks)
      ensures i < |old(links)| && links == CutLinks(old(links), i, relink)
    {
      hide CellOf, CutLinks;
    }

    /** Without `relink` the old successor still points back at the block that was cut. */
    twostate lemma SplitLinked(new i: nat, new n: nat, new relink: bool)
      requires JustSplit(i, n, relink) && old(Linked())
      ensures Linked()
    {
      SplitAt(i, n, relink);
      CutTrailing(old(links), i, relink);
      hide CellOf, CutLinks, Trailing;
      forall k | 0 <= k < |blocks|
        ensures LeadsTo(blocks[k].prev, links[k])
      {
        SplitLink(i, n, relink, k);
      }
    }

    twostate lemma SplitLink(new i: nat, new n: nat, new relink: bool, new k: nat)
      requires JustSplit(i, n, relink) && old(Linked()) && k < |blocks|
      ensures k < |links| && LeadsTo(blocks[k].prev, links[k])
    {
      var os, ls := old(blocks), old(links);
      SplitAt(i, n, relink);
      hide CellOf, CutLinks, Trailing;
      if k != i + 1 && !(relink && k == i + 2) {
        var j := if k <= i then k else k - 1;
        assert old(LeadsTo(os[j].prev, ls[j])) && os[j].prev == old(os[j].prev);
        if ls[j].To? {
          var a := ls[j].at;
          assert os[a] == blocks[if a <= i then a else a + 1];
        }
      }
    }

    /** Lines 70-72. */
    method Mark(current_block: Block, ghost i: nat, align_padding: nat, ghost want: nat, ghost align: nat)
      returns (result: nat)
      requires Forward() && Linked() && i < |blocks| && blocks[i] == current_block
      modifies current_block
      ensures Forward() && Linked() && (Backward() <==> old(Backward()))
      ensures result == (current_block.addr + HEADER + align_padding) % WORD
      ensures Layout() == old(Layout())[i := Live(current_block.addr, old(current_block.size), result, want, align)]
    {
      current_block.used := true;
      result := (current_block.addr + HEADER + align_padding) % WORD;
      current_block.data := result;
      current_block.want, current_block.align := want, align;
      SameLinks();
    }

    twostate lemma SameLinks()
      requires blocks == old(blocks) && forall b <- blocks :: old(allocated(b)) && b.prev == old(b.prev)
      ensures Backward() <==> old(Backward())
      ensures links == old(links) && old(Linked()) ==> Linked()
    {
      if Backward() {
        forall k | 0 <= k < |blocks|
          ensures old(blocks[k].prev) == if k > 0 then blocks[k - 1] else null
        {
          assert blocks[k].prev == old(blocks[k].prev);
        }
      }
      if links == old(links) && old(Linked()) {
        forall k | 0 <= k < |blocks|
          ensures LeadsTo(blocks[k].prev, links[k])
        {
          assert old(LeadsTo(blocks[k].prev, links[k]));
        }
      }
    }

    /** Lines 56-73: take block `i`, splitting it when enough is left over. */
    method Take(current_block: Block, ghost i: nat, size: nat, align: nat, align_padding: nat, aligned_size: nat,
                relink: bool)
      returns (result: nat)
      requires Forward() && Linked() && i < |blocks| && blocks[i] == current_block && align > 0
      requires Fits(Layout()[i], size, align)
      requires align_padding == Padding(current_block.addr + HEADER, align)
      requires aligned_size == Needed(current_block.addr, size, align)
      modifies this`blocks, this`links, blocks
      ensures Forward() && Linked() && Layout() == AllocAt(old(Layout()), i, size, align)
      ensures links == if Splits(old(Layout())[i], size, align) then CutLinks(old(links), i, relink) else old(links)
      ensures forall b <- blocks :: fresh(b) || b in old(blocks)
      ensures result == Taken(old(Layout())[i], size, align).data
      ensures old(Backward()) ==>
        (Backward() <==> relink || !(i + 1 < |old(blocks)| && Splits(old(Layout())[i], size, align)))
    {
      hide Padding, Forward, Linked, Backward;
      ghost var cs, bs := Layout(), blocks;
      ghost var splits := Splits(cs[i], size, align);
      if current_block.size - aligned_size > HEADER + SMALLEST_BLOCK {
        Split(current_block, i, aligned_size, relink);
        CutAt(cs, i, aligned_size);
      }
      assert Layout()[i] == Free(current_block.addr, if splits then aligned_size else cs[i].size);
      result := Mark(current_block, i, align_padding, size, align);
      CutMarked(cs, i, size, align);
    }

    /** Lines 48-54. */
    method AlignedSize(addr: nat, size: nat, align: nat) returns (align_padding: nat, aligned_size: nat)
      requires 0 < align < WORD && size < WORD
      ensures align_padding == Padding(addr + HEADER, align) && aligned_size == Needed(addr, size, align)
    {
      var base_data := addr + HEADER;
      align_padding := base_data % align;
      if align_padding != 0 { align_padding := align - align_padding; }
      PaddingAligns(base_data, align);
      aligned_size := (size + align_padding) % WORD;
      if aligned_size < SMALLEST_BLOCK { aligned_size := SMALLEST_BLOCK; }
    }

    /** The source is the case `relink == false`. An allocation takes the first block that fits, and breaks a
        backward link exactly when that block is split in front of another one. */
    method KmallocAligned(size: nat, align: nat, relink: bool) returns (result: nat)
      requires Shape() && 0 < align < WORD && size < WORD
      modifies this, blocks
      ensures Shape() && blocks != [] && List() == Requested(old(BaseList()), size, align, relink)
      ensures result == Result(old(Base()), size, align)
      ensures forall b <- blocks :: fresh(b) || b in old(blocks)
      ensures old(Valid()) ==> Valid() && Layout() == Alloc(old(Base()), size, align)
      ensures (old(blocks) == [] || old(Backward())) ==>
        (Backward() <==> relink || !InsideSplit(old(Base()), size, align))
      ensures old(Valid() && Held(Base())) ==> (Held(Layout()) <==> HandsOut(old(Base()), size, align))
    {
      ghost var s, valid, straight := BaseList(), Valid(), blocks == [] || Backward();
      BackwardIs();
      BaseMatched();
      RequestedMatched(s, size, align, relink);
      if valid { ApplyTidy(s.cells, start, Limit(), Allocate(size, align)); }
      if valid && Held(s.cells) { AllocHolds(s.cells, start, Limit(), size, align); }
      if straight { RequestedStraight(s, size, align, relink); }
      hide *;
      Prepare();
      result := TakeFirstFit(size, align, relink);
      Concluded(s, size, align, relink);
    }

    lemma BaseMatched()
      requires Shape()
      ensures Matched(BaseList()) && (blocks == [] || Backward() ==> BaseList().links == Straight(|BaseList().cells|))
    {
      BackwardIs();
    }

    lemma Concluded(s: Linking, size: nat, align: nat, relink: bool)
      requires Shape() && blocks != [] && align > 0 && |s.cells| == |s.links|
      requires List() == Requested(s, size, align, relink)
      ensures Base() == Layout() == List().cells && links == List().links
      ensures Backward() <==> links == Straight(|Layout()|)
      ensures Valid() <==> Tidy(Layout(), start, Limit())
    {
      BackwardIs();
    }

    /** Lines 33-41, when this is the first request. */
    method Prepare()
      requires Shape()
      modifies this
      ensures Shape() && blocks != [] && List() == old(BaseList())
      ensures forall k {:trigger blocks[k]} :: 0 <= k < |blocks| ==> fresh(blocks[k]) || blocks[k] in old(blocks)
    {
      if start_block == null {
        Initialize();
      }
    }

    /** Lines 45-79: search the list and take the first block that fits. */
    method TakeFirstFit(size: nat, align: nat, relink: bool) returns (result: nat)
      requires Shape() && blocks != [] && 0 < align < WORD && size < WORD
      modifies this`blocks, this`links, blocks
      ensures Shape() && blocks != [] && List() == Requested(old(List()), size, align, relink)
      ensures result == Result(old(Layout()), size, align)
      ensures forall b <- blocks :: fresh(b) || b in old(blocks)
    {
      hide Padding, Needed, Alloc, AllocAt, FirstFit, Taken, Splits, Linked;
      ghost var cs := Layout();
      ghost var i: nat := 0;
      var current_block := start_block;
      while current_block != null
        invariant unchanged(this) && unchanged(blocks)
        invariant i <= |blocks| && current_block == if i < |blocks| then blocks[i] else null
        invariant forall j :: 0 <= j < i ==> !Fits(cs[j], size, align)
        decreases |blocks| - i
      {
        var align_padding, aligned_size := AlignedSize(current_block.addr, size, align);
        assert cs[i] == CellOf(current_block);
        if !current_block.used && current_block.size >= aligned_size {
          assert Fits(cs[i], size, align);
          AllocIs(cs, size, align, i);
          result := Take(current_block, i, size, align, align_padding, aligned_size, relink);
          return;
        }
        current_block := current_block.next;
        i := i + 1;
      }
      AllocIs(cs, size, align, i);
      result := 0;
    }

    method Kmalloc(size: nat, relink: bool) returns (result: nat)
      requires Shape() && size < WORD
      modifies this, blocks
      ensures Shape() && blocks != [] && List() == Requested(old(BaseList()), size, 4, relink)
      ensures result == Result(old(Base()), size, 4)
      ensures forall b <- blocks :: fresh(b) || b in old(blocks)
      ensures old(Valid()) ==> Valid() && Layout() == Alloc(old(Base()), size, 4)
      ensures (old(blocks) == [] || old(Backward())) ==> (Backward() <==> relink || !InsideSplit(old(Base()), size, 4))
      ensures old(Valid() && Held(Base())) ==> (Held(Layout()) <==> HandsOut(old(Base()), size, 4))
    {
      result := KmallocAligned(size, 4, relink);
    }

    /** Lines 86-91: `prev`, block `j`, absorbs `next`, block `i`, and its successor. */
    method CombineBlock(prev: Block, next: Block, ghost j: nat, ghost i: nat)
      requires Forward() && Linked() && j < i < |blocks| && blocks[j] == prev && blocks[i] == next && !prev.used
      modifies this`blocks, this`links, blocks
      ensures Forward() && Linked() && |blocks| == |old(blocks)| - (i - j) && blocks[j] == prev && !prev.used
      ensures forall b <- blocks :: b in old(blocks)
      ensures List() == JoinAt(old(List()), j, i)
    {
      Absorb(prev, next, j, i);
      hide Forward, Linked, Layout, JustMerged, JoinAt, JoinLinks;
      MergedAt(j, i);
      MergedLayout(j, i);
      MergedForward(j, i);
      MergedLinked(j, i);
    }

    method Absorb(prev: Block, next: Block, ghost j: nat, ghost i: nat)
      requires Forward() && j < i < |blocks| && blocks[j] == prev && blocks[i] == next && !prev.used
      requires |links| == |blocks|
      modifies this`blocks, this`links, blocks
      ensures JustMerged(j, i) && !prev.used
    {
      ghost var os := blocks;
      assert next.next == (if i + 1 < |os| then os[i + 1] else null) && next != prev;
      assert forall k :: 0 <= k < |os| ==>
        (os[k] == prev <==> k == j) && (i + 1 < |os| ==> (os[k] == os[i + 1] <==> k == i + 1));
      hide Forward, JoinLinks;
      prev.size := prev.size + HEADER + next.size;
      prev.next := next.next;
      if next.next != null {
        next.next.prev := prev;
      }
      blocks := os[..j + 1] + os[i + 1..];
      links := JoinLinks(links, j, i);
    }

    /** The list right after block `j` absorbed block `i`. */
    twostate predicate JustMerged(new j: nat, new i: nat)
      reads *
    {
      var os := old(blocks);
      && j < i < |os| && blocks == os[..j + 1] + os[i + 1..] && start_block == old(start_block)
      && |old(links)| == |os| && links == JoinLinks(old(links), j, i)
      && (forall k {:trigger os[k]} :: 0 <= k < |os| ==>
            old(allocated(os[k])) && (k != j ==> CellOf(os[k]) == old(CellOf(os[k]))))
      && CellOf(os[j]) == Free(os[j].addr, old(os[j].size) + HEADER + old(os[i].size))
      && (forall k {:trigger os[k]} :: 0 <= k < |os| ==> os[k].prev == if k == i + 1 then os[j] else old(os[k].prev))
      && (forall k {:trigger os[k]} :: 0 <= k < |os| ==>
            os[k].next == if k == j then old(os[i].next) else old(os[k].next))
    }

    twostate lemma MergedAt(new j: nat, new i: nat)
      requires JustMerged(j, i)
      ensures |blocks| == |old(blocks)| - (i - j)
      ensures forall k {:trigger blocks[k]} :: 0 <= k < |blocks| ==>
        blocks[k] == old(blocks)[if k <= j then k else k + (i - j)]
      ensures j < |blocks| && forall b <- blocks :: b in old(blocks)
    {
      hide CellOf, JoinLinks;
    }

    twostate lemma MergedLayout(new j: nat, new i: nat)
      requires JustMerged(j, i)
      ensures j < i < |old(List()).cells| == |old(List()).links| && List() == JoinAt(old(List()), j, i)
    {
      var os, cs, cs' := old(blocks), old(Layout()), Layout();
      MergedAt(j, i);
      forall k | 0 <= k < |cs'|
        ensures cs'[k] == JoinAt(old(List()), j, i).cells[k]
      {
        assert blocks[k] == os[if k <= j then k else k + (i - j)];
      }
    }

    twostate lemma MergedForward(new j: nat, new i: nat)
      requires JustMerged(j, i) && old(Forward())
      ensures Forward()
    {
      MergedAt(j, i);
      hide CellOf, JoinLinks, JustMerged;
      forall k | 0 <= k < |blocks|
        ensures blocks[k].next == if k + 1 < |blocks| then blocks[k + 1] else null
      {
        MergedNext(j, i, k);
      }
      MergedFront(j, i);
    }

    twostate lemma MergedFront(new j: nat, new i: nat)
      requires JustMerged(j, i)
      ensures start_block == old(start_block) && blocks != [] && blocks[0] == old(blocks)[0]
    {
      hide CellOf, JoinLinks;
    }

    twostate lemma MergedNext(new j: nat, new i: nat, new k: nat)
      requires JustMerged(j, i) && old(Forward()) && k < |blocks|
      ensures blocks[k].next == if k + 1 < |blocks| then blocks[k + 1] else null
    {
      var os := old(blocks);
      MergedAt(j, i);
      hide CellOf, JoinLinks;
      var o := if k <= j then k else k + (i - j);
      var n := if k < j then k else k + (i - j);
      assert old(os[n].next) == if n + 1 < |os| then os[n + 1] else null;
      assert blocks[k] == os[o] && os[o].next == old(os[n].next);
    }

    twostate lemma MergedLinked(new j: nat, new i: nat)
      requires JustMerged(j, i) && old(Forward()) && old(Linked())
      ensures Linked()
    {
      JoinTrailing(old(links), j, i);
      MergedAt(j, i);
      hide CellOf, JoinLinks, Trailing, Forward;
      forall k | 0 <= k < |blocks|
        ensures LeadsTo(blocks[k].prev, links[k])
      {
        MergedLink(j, i, k);
      }
    }

    twostate lemma MergedLink(new j: nat, new i: nat, new k: nat)
      requires JustMerged(j, i) && old(Forward()) && old(Linked()) && k < |blocks|
      ensures k < |links| && LeadsTo(blocks[k].prev, links[k])
    {
      var os, ls := old(blocks), old(links);
      MergedAt(j, i);
      assert links[k] == JoinLink(ls, j, i, k);
      if k != j + 1 {
        var o := if k <= j then k else k + (i - j);
        assert blocks[k] == os[o];
        assert old(LeadsTo(os[o].prev, ls[o])) && os[o].prev == old(os[o].prev);
        StillLeadsTo(os, j, i, os[o].prev, ls[o]);
      } else {
        assert blocks[k] == os[i + 1] && blocks[j] == os[j];
      }
    }

    /** A link from a block that stays. */
    lemma StillLeadsTo(os: seq<Block>, j: nat, i: nat, b: Block?, l: Link)
      requires j < i < |os| && blocks == os[..j + 1] + os[i + 1..]
      requires forall x, y :: 0 <= x < y < |os| ==> os[x] != os[y]
      requires match l case Null => b == null case To(a) => a < |os| && b == os[a] case Gone => b != null && b !in os
      ensures LeadsTo(b, Without(l, j, i))
    {
      if l.To? {
        if l.at > i {
          assert blocks[l.at - (i - j)] == os[l.at];
        } else if l.at <= j {
          assert blocks[l.at] == os[l.at];
        }
      }
    }

    /** Whatever the backward links are, as long as that of the block does not lead out of the list. The region stays
        partitioned exactly when it is right or nothing is merged along it. */
    method Kfree(address: nat)
      requires Shape() && Traceable(List(), address)
      modifies this`blocks, this`links, blocks
      ensures Shape() && List() == Released(old(List()), address)
      ensures forall b <- blocks :: b in old(blocks)
      ensures old(Valid()) ==> (Valid() <==> FreesWell(old(List()), address))
      ensures old(Backward()) ==> Backward() && Layout() == Kfreed(old(Layout()), address)
      ensures old(Valid() && Backward()) ==> Valid()
      ensures old(Backward() && Held(Layout())) ==> Held(Layout())
    {
      ghost var s := List();
      ListIs();
      if s.links == Straight(|s.cells|) { ReleasedStraight(s, address); }
      if Tidy(s.cells, start, Limit()) { ReleasedTidy(s, start, Limit(), address); }
      if Held(s.cells) { KfreedHolds(s.cells, address); }
      hide *;
      FreeBlock(address);
      ListIs();
      NoneFreed(s, address);
      StraightFreesWell(s, address);
    }

    lemma ListIs()
      requires Shape()
      ensures Matched(List()) && Layout() == List().cells && |blocks| == |List().cells|
      ensures Backward() <==> List().links == Straight(|List().cells|)
      ensures Valid() <==> blocks == [] || Tidy(List().cells, start, Limit())
    {
      BackwardIs();
    }

    /** Lines 94-111: search the list for the block. */
    method FreeBlock(address: nat)
      requires Shape() && Traceable(List(), address)
      modifies this`blocks, this`links, blocks
      ensures Shape() && List() == Released(old(List()), address)
      ensures forall b <- blocks :: b in old(blocks)
    {
      if start_block == null { return; }
      hide FindLive, Released, ReleaseAt, Traceable;
      ghost var s := List();
      ghost var i: nat := 0;
      var current_block := start_block;
      while current_block != null
        invariant unchanged(this) && unchanged(blocks)
        invariant i <= |blocks| && current_block == if i < |blocks| then blocks[i] else null
        invariant forall j :: 0 <= j < i ==> !(s.cells[j].Live? && s.cells[j].data == address)
        decreases |blocks| - i
      {
        assert s.cells[i] == CellOf(current_block);
        if current_block.used && current_block.data == address {
          ReleasedIs(s, address, i);
          Release(current_block, i);
          return;
        }
        current_block := current_block.next;
        i := i + 1;
      }
      ReleasedIs(s, address, i);
    }

    /** Lines 99-107. */
    method Release(current_block: Block, ghost i: nat)
      requires Forward() && Linked() && i < |blocks| && blocks[i] == current_block && current_block.used
      requires !links[i].Gone?
      modifies this`blocks, this`links, blocks
      ensures Forward() && Linked() && List() == ReleaseAt(old(List()), i)
      ensures forall b <- blocks :: b in old(blocks)
    {
      Around(i);
      ReleaseNextIs(List().(cells := List().cells[i := Free(current_block.addr, current_block.size)]), i);
      Unmark(current_block, i);
      hide ReleaseNext, ReleasePrev, Forward, Linked;
      CombineNext(current_block, i);
      assert forall k {:trigger blocks[k]} :: 0 <= k < |blocks| ==> blocks[k] in old(blocks);
      CombinePrev(current_block, i);
    }

    method CombineNext(current_block: Block, ghost i: nat)
      requires Forward() && Linked() && i < |blocks| && blocks[i] == current_block && !current_block.used
      modifies this`blocks, this`links, blocks
      ensures Forward() && Linked() && i < |blocks| && blocks[i] == current_block && !current_block.used
      ensures i < |old(List()).cells| == |old(List()).links| && List() == ReleaseNext(old(List()), i)
      ensures forall b <- blocks :: b in old(blocks)
    {
      Around(i);
      hide JoinAt, Forward, Linked, LeadsTo;
      if current_block.next != null && !current_block.next.used {
        CombineBlock(current_block, current_block.next, i, i + 1);
      }
    }

    method CombinePrev(current_block: Block, ghost i: nat)
      requires Forward() && Linked() && i < |blocks| && blocks[i] == current_block && !current_block.used
      requires !links[i].Gone?
      modifies this`blocks, this`links, blocks
      ensures Forward() && Linked()
      ensures i < |old(List()).cells| == |old(List()).links| && List() == ReleasePrev(old(List()), i)
      ensures forall b <- blocks :: b in old(blocks)
    {
      Around(i);
      hide JoinAt, Forward, Linked, LeadsTo;
      if current_block.prev != null && !current_block.prev.used {
        CombineBlock(current_block.prev, current_block, links[i].at, i);
      }
    }

    /** What the two links of a block lead to. */
    lemma Around(i: nat)
      requires Forward() && Linked() && i < |blocks|
      ensures Matched(List()) && |links| == |blocks|
      ensures blocks[i].next == if i + 1 < |blocks| then blocks[i + 1] else null
      ensures i + 1 < |blocks| ==> (List().cells[i + 1].Free? <==> !blocks[i + 1].used)
      ensures links[i].Null? ==> blocks[i].prev == null
      ensures links[i].To? ==>
        links[i].at < i && blocks[i].prev == blocks[links[i].at]
        && (List().cells[links[i].at].Free? <==> !blocks[links[i].at].used)
    {
      assert LeadsTo(blocks[i].prev, links[i]);
    }

    method Unmark(current_block: Block, ghost i: nat)
      requires Forward() && Linked() && i < |blocks| && blocks[i] == current_block
      modifies current_block`used
      ensures !current_block.used && Forward() && Linked()
      ensures Layout() == old(Layout())[i := Free(current_block.addr, current_block.size)]
    {
      current_block.used := false;
      SameLinks();
    }
  }
}
