/** Physical page frames and page directories (src/kernel/c/memory/paging.c). */
module Paging {
  const PAGE_ENTRY_COUNT := 1024
  const PAGE_FRAME_SIZE := 0x40_0000
  const PAGE_FRAME_MAX_COUNT := 32
  const KERNEL_PROGRAM := 0x300  // directory slots every directory shares
  const KERNEL_STACK := 0x3FF

  /** A page directory entry: the flags the kernel sets and the frame it points at. */
  datatype Entry = Entry(present: bool, write: bool, user: bool, use_pagesize_4_mb: bool, lower_address: nat)

  const NO_ENTRY := Entry(false, false, false, false, 0)

  function UserEntry(frame: nat): Entry { Entry(true, true, true, true, frame) }

  function KernelEntry(frame: nat): Entry { Entry(true, true, false, true, frame) }

  function PageIndex(virtual_addr: nat): nat { (virtual_addr / PAGE_FRAME_SIZE) % PAGE_ENTRY_COUNT }

  /** The addresses a directory gives back when it is freed: whole pages of its first slots. */
  predicate UserAddress(virtual_addr: nat) {
    virtual_addr == PAGE_FRAME_SIZE * PageIndex(virtual_addr) && PageIndex(virtual_addr) < PAGE_FRAME_MAX_COUNT
  }

  lemma PageIndexOf(j: nat)
    requires j < PAGE_ENTRY_COUNT
    ensures PageIndex(PAGE_FRAME_SIZE * j) == j
  {
  }

  class PageDirectory {
    var table: seq<Entry>

    constructor ()
      ensures table == Prefilled()
    {
      table := Prefilled();
    }
  }

  /** Every directory begins with the kernel's two pages only. */
  function Prefilled(): seq<Entry> {
    seq(PAGE_ENTRY_COUNT, _ => NO_ENTRY)[KERNEL_PROGRAM := KernelEntry(0)][KERNEL_STACK := KernelEntry(1)]
  }

  // ---------- who uses the frames ----------

  datatype Use = Unused | Kernel | Owned(dir: PageDirectory, address: nat)

  function FirstUnused(us: seq<Use>, i: nat): (r: nat)
    requires i <= |us|
    ensures i <= r <= |us| && (r < |us| ==> us[r] == Unused) && forall j :: i <= j < r ==> us[j] != Unused
    decreases |us| - i
  {
    if i == |us| || us[i] == Unused then i else FirstUnused(us, i + 1)
  }

  function Find(us: seq<Use>, u: Use, i: nat): (r: nat)
    requires i <= |us|
    ensures i <= r <= |us| && (r < |us| ==> us[r] == u) && forall j :: i <= j < r ==> us[j] != u
    decreases |us| - i
  {
    if i == |us| || us[i] == u then i else Find(us, u, i + 1)
  }

  ghost function InUse(us: seq<Use>): nat {
    if us == [] then 0 else (if us[0] == Unused then 0 else 1) + InUse(us[1..])
  }

  lemma {:induction false} InUseUpdate(us: seq<Use>, i: nat, u: Use)
    requires i < |us|
    ensures InUse(us[i := u]) == InUse(us) - (if us[i] == Unused then 0 else 1) + (if u == Unused then 0 else 1)
    decreases |us|
  {
    if i > 0 {
      InUseUpdate(us[1..], i - 1, u);
      assert us[i := u][1..] == us[1..][i - 1 := u];
    } else {
      assert us[i := u][1..] == us[1..];
    }
  }

  lemma {:induction false} InUseNone(us: seq<Use>)
    requires forall i :: 0 <= i < |us| ==> us[i] == Unused
    ensures InUse(us) == 0
    decreases |us|
  {
    if us != [] { InUseNone(us[1..]); }
  }

  lemma {:induction false} InUseBound(us: seq<Use>)
    ensures InUse(us) <= |us| && (InUse(us) == |us| <==> Unused !in us)
    decreases |us|
  {
    if us != [] {
      InUseBound(us[1..]);
      assert us == [us[0]] + us[1..];
    }
  }

  /** The frames one directory has for its first `n` slots given back. */
  function ReleasedAll(us: seq<Use>, dir: PageDirectory, n: nat): seq<Use> {
    seq(|us|, i requires 0 <= i < |us| =>
      if us[i].Owned? && us[i].dir == dir && us[i].address < PAGE_FRAME_SIZE * n then Unused else us[i])
  }

  function Disowned(us: seq<Use>, dir: PageDirectory): seq<Use> {
    seq(|us|, i requires 0 <= i < |us| => if us[i].Owned? && us[i].dir == dir then Unused else us[i])
  }

  // ---------- exclusive frames ----------

  type Tables = map<PageDirectory, seq<Entry>>

  /** A frame in use is recorded for one live directory and user address, whose entry points back at it. */
  ghost predicate Backed(us: seq<Use>, ts: Tables, i: nat)
    requires i < |us|
  {
    us[i].Owned? ==>
      && us[i].dir in ts && UserAddress(us[i].address) && |ts[us[i].dir]| == PAGE_ENTRY_COUNT
      && ts[us[i].dir][PageIndex(us[i].address)] == UserEntry(i)
  }

  /** An entry of a live directory is one of the kernel's, or points at a frame recorded for it. */
  ghost predicate Recorded(us: seq<Use>, ts: Tables, d: PageDirectory, j: nat)
    requires d in ts && j < |ts[d]|
  {
    var e := ts[d][j];
    e.present ==>
      || (j == KERNEL_PROGRAM && e == KernelEntry(0))
      || (j == KERNEL_STACK && e == KernelEntry(1))
      || (e == UserEntry(e.lower_address) && e.lower_address < |us|
            && us[e.lower_address] == Owned(d, PAGE_FRAME_SIZE * j))
  }

  ghost predicate Exclusive(us: seq<Use>, ts: Tables) {
    && (forall i {:trigger Backed(us, ts, i)} :: 0 <= i < |us| ==> Backed(us, ts, i))
    && (forall d {:trigger ts[d]} :: d in ts ==> |ts[d]| == PAGE_ENTRY_COUNT)
    && (forall d, j {:trigger Recorded(us, ts, d, j)} :: d in ts && 0 <= j < PAGE_ENTRY_COUNT ==>
          Recorded(us, ts, d, j))
  }

  /** No frame is handed out twice, and no user entry of a live directory reaches one of the kernel's frames. */
  lemma FramesExclusive(us: seq<Use>, ts: Tables, i: nat, k: nat, d: PageDirectory, j: nat)
    requires Exclusive(us, ts) && i < |us| && k < |us| && us[i].Owned? && us[i] == us[k]
    requires |us| >= 2 && us[0] == us[1] == Kernel && d in ts && j < PAGE_ENTRY_COUNT
    ensures i == k
    ensures ts[d][j].present && ts[d][j].user ==> 2 <= ts[d][j].lower_address < |us|
  {
    assert Backed(us, ts, i) && Backed(us, ts, k);
    assert Recorded(us, ts, d, j);
  }

  function AllocatedTables(ts: Tables, d: PageDirectory, virtual_addr: nat, e: Entry): Tables
    requires d in ts && |ts[d]| == PAGE_ENTRY_COUNT
  {
    ts[d := ts[d][PageIndex(virtual_addr) := e]]
  }

  /** Handing out an unused frame keeps frames exclusive exactly when the address is a user page that the
      directory does not map yet; the allocator itself checks neither. */
  lemma AllocateExclusive(us: seq<Use>, ts: Tables, i: nat, d: PageDirectory, virtual_addr: nat)
    requires Exclusive(us, ts) && i < |us| && us[i] == Unused && d in ts
    ensures Exclusive(us[i := Owned(d, virtual_addr)], AllocatedTables(ts, d, virtual_addr, UserEntry(i)))
      <==> UserAddress(virtual_addr) && !ts[d][PageIndex(virtual_addr)].present
  {
    var us', ts', p := us[i := Owned(d, virtual_addr)], AllocatedTables(ts, d, virtual_addr, UserEntry(i)),
      PageIndex(virtual_addr);
    assert Recorded(us, ts, d, p);
    if Exclusive(us', ts') {
      assert Backed(us', ts', i);
      var k := ts[d][p].lower_address;
      assert k < |us| ==> Backed(us', ts', k);
    }
    if UserAddress(virtual_addr) && !ts[d][p].present {
      forall k | 0 <= k < |us'|
        ensures Backed(us', ts', k)
      {
        assert Backed(us, ts, k);
      }
      forall e, j | e in ts' && 0 <= j < PAGE_ENTRY_COUNT
        ensures Recorded(us', ts', e, j)
      {
        assert Recorded(us, ts, e, j);
      }
    }
  }

  /** Taking a frame back keeps frames exclusive. */
  lemma FreeExclusive(us: seq<Use>, ts: Tables, i: nat, d: PageDirectory, virtual_addr: nat)
    requires Exclusive(us, ts) && i < |us| && us[i] == Owned(d, virtual_addr) && d in ts
    ensures Exclusive(us[i := Unused], AllocatedTables(ts, d, virtual_addr, NO_ENTRY))
  {
    var us', ts', p := us[i := Unused], AllocatedTables(ts, d, virtual_addr, NO_ENTRY), PageIndex(virtual_addr);
    assert Backed(us, ts, i);
    forall k | 0 <= k < |us'|
      ensures Backed(us', ts', k)
    {
      assert Backed(us, ts, k);
      if us[k].Owned? && us[k].dir == d && k != i {
        assert ts[d][PageIndex(us[k].address)] == UserEntry(k);
      }
    }
    forall e, j | e in ts' && 0 <= j < PAGE_ENTRY_COUNT
      ensures Recorded(us', ts', e, j)
    {
      assert Recorded(us, ts, e, j);
      PageIndexOf(j);
    }
  }

  /** A directory whose frames were all taken back can be forgotten. */
  lemma ForgetExclusive(us: seq<Use>, ts: Tables, d: PageDirectory)
    requires Exclusive(us, ts) && d in ts && forall i :: 0 <= i < |us| ==> !(us[i].Owned? && us[i].dir == d)
    ensures Exclusive(us, ts - {d})
  {
    forall k | 0 <= k < |us|
      ensures Backed(us, ts - {d}, k)
    {
      assert Backed(us, ts, k);
    }
    forall e, j | e in ts - {d} && 0 <= j < PAGE_ENTRY_COUNT
      ensures Recorded(us, ts - {d}, e, j)
    {
      assert Recorded(us, ts, e, j);
    }
  }

  /** A new directory has no frames. */
  lemma NewExclusive(us: seq<Use>, ts: Tables, d: PageDirectory)
    requires Exclusive(us, ts) && d !in ts
    ensures Exclusive(us, ts[d := Prefilled()])
  {
    var ts' := ts[d := Prefilled()];
    forall k | 0 <= k < |us|
      ensures Backed(us, ts', k)
    {
      assert Backed(us, ts, k);
    }
    forall e, j | e in ts' && 0 <= j < PAGE_ENTRY_COUNT
      ensures Recorded(us, ts', e, j)
    {
      if e != d { assert Recorded(us, ts, e, j); }
    }
  }

  /** Slot `n` of a directory given back, by freeing the frame it maps if it maps one. */
  lemma ReleaseNext(us: seq<Use>, ts: Tables, us0: seq<Use>, ts0: Tables, d: PageDirectory, n: nat)
    requires Exclusive(us0, ts0) && us == ReleasedAll(us0, d, n) && Exclusive(us, ts) && d in ts
    requires n < PAGE_FRAME_MAX_COUNT
    ensures var i := Find(us, Owned(d, PAGE_FRAME_SIZE * n), 0);
      ReleasedAll(us0, d, n + 1) == (if i < |us| then us[i := Unused] else us) && (ts[d][n].present <==> i < |us|)
  {
    var a := PAGE_FRAME_SIZE * n;
    var i := Find(us, Owned(d, a), 0);
    PageIndexOf(n);
    assert Recorded(us, ts, d, n);
    assert i < |us| ==> Backed(us, ts, i);
    var us1 := ReleasedAll(us0, d, n + 1);
    forall k | 0 <= k < |us|
      ensures us1[k] == (if k == i then Unused else us[k])
    {
      assert Backed(us0, ts0, k) && Backed(us, ts, k);
    }
  }

  lemma ReleasedIsDisowned(us: seq<Use>, ts: Tables, d: PageDirectory)
    requires Exclusive(us, ts)
    ensures ReleasedAll(us, d, PAGE_FRAME_MAX_COUNT) == Disowned(us, d)
  {
    forall k | 0 <= k < |us|
      ensures ReleasedAll(us, d, PAGE_FRAME_MAX_COUNT)[k] == Disowned(us, d)[k]
    {
      assert Backed(us, ts, k);
    }
  }

  class PageManager {
    const mapped: array<bool>
    const mapped_address: array<nat>
    const mapped_dir: array<PageDirectory?>
    var free_page_frame_count: nat
    ghost var dirs: set<PageDirectory>

    ghost function Footprint(): set<object> { {this, mapped, mapped_address, mapped_dir} }

    ghost predicate Shape() {
      && mapped.Length == mapped_address.Length == mapped_dir.Length == PAGE_FRAME_MAX_COUNT
    }

    ghost function Frames(): (us: seq<Use>)
      requires Shape()
      reads mapped, mapped_address, mapped_dir
    {
      seq(PAGE_FRAME_MAX_COUNT, i requires 0 <= i < PAGE_FRAME_MAX_COUNT reads mapped, mapped_address, mapped_dir =>
        if !mapped[i] then Unused else if mapped_dir[i] == null then Kernel
          else Owned(mapped_dir[i], mapped_address[i]))
    }

    /** A frame is used when it is marked as mapped, by the directory recorded for it or by the kernel. */
    lemma FramesMean(i: nat)
      requires Shape() && i < 32
      ensures |Frames()| == 32
      ensures Frames()[i] == Unused <==> !mapped[i]
      ensures Frames()[i] == Kernel <==> mapped[i] && mapped_dir[i] == null
      ensures forall d, a :: Frames()[i] == Owned(d, a) <==> mapped[i] && mapped_dir[i] == d && mapped_address[i] == a
    {
    }

    /** The records are consistent, the kernel keeps its two frames, and free count and frames in use add up to
        a constant: two more than there are frames, since the count starts with the kernel's two included. */
    ghost predicate Valid()
      reads Footprint()
    {
      && Shape()
      && (forall i {:trigger mapped[i]} :: 0 <= i < PAGE_FRAME_MAX_COUNT && !mapped[i] ==>
            mapped_dir[i] == null && mapped_address[i] == 0)
      && (forall i {:trigger mapped_dir[i]} :: 0 <= i < PAGE_FRAME_MAX_COUNT ==>
            (mapped[i] && mapped_dir[i] == null <==> i == 0 || i == 1))
      && free_page_frame_count + InUse(Frames()) == PAGE_FRAME_MAX_COUNT + 2
    }

    ghost function Tables(): Tables
      reads this, dirs
    {
      map d | d in dirs :: d.table
    }

    constructor ()
      ensures Valid() && dirs == {} && fresh(Footprint())
      ensures Frames() == [Kernel, Kernel] + seq(PAGE_FRAME_MAX_COUNT - 2, _ => Unused)
      ensures Exclusive(Frames(), Tables())
    {
      mapped := new bool[PAGE_FRAME_MAX_COUNT](i => i == 0 || i == 1);
      mapped_address := new nat[PAGE_FRAME_MAX_COUNT](_ => 0);
      mapped_dir := new PageDirectory?[PAGE_FRAME_MAX_COUNT](_ => null);
      free_page_frame_count := PAGE_FRAME_MAX_COUNT;
      dirs := {};
      new;
      ghost var rest := seq(PAGE_FRAME_MAX_COUNT - 2, _ => Unused);
      assert Frames() == [Kernel, Kernel] + rest;
      InUseNone(rest);
      assert Frames()[1..] == [Kernel] + rest && Frames()[1..][1..] == rest;
    }

    /** What does not touch the records and the directories keeps all that is said of them. */
    twostate lemma Untouched()
      requires unchanged(this) && unchanged(mapped) && unchanged(mapped_address) && unchanged(mapped_dir)
      requires forall d <- dirs :: d.table == old(d.table)
      ensures old(Valid()) ==> Valid()
      ensures Shape() ==> Frames() == old(Frames()) && Tables() == old(Tables())
    {
      if Shape() {
        assert Frames() == old(Frames());
        assert Tables() == old(Tables());
      }
    }

    /** The check agrees with the frames there are, but for the two the count has too many. */
    method AllocateCheck(amount: nat) returns (r: bool)
      requires Valid()
      ensures r <==> amount <= PAGE_FRAME_MAX_COUNT - InUse(Frames()) + 2
    {
      r := amount <= free_page_frame_count;
    }

    method UpdateEntry(page_dir: PageDirectory, physical_addr: nat, virtual_addr: nat, flag: Entry)
      requires |page_dir.table| == PAGE_ENTRY_COUNT
      modifies page_dir
      ensures page_dir.table ==
        old(page_dir.table)[PageIndex(virtual_addr) := flag.(lower_address := PageIndex(physical_addr))]
    {
      var page_index := (virtual_addr / PAGE_FRAME_SIZE) % PAGE_ENTRY_COUNT;
      var lower_address := (physical_addr / PAGE_FRAME_SIZE) % PAGE_ENTRY_COUNT;
      page_dir.table := page_dir.table[page_index := flag.(lower_address := lower_address)];
    }

    /** Succeeds exactly when some frame is unused, and then takes the first one. */
    method AllocateFrame(page_dir: PageDirectory, virtual_addr: nat) returns (r: bool)
      requires Valid() && page_dir in dirs && |page_dir.table| == PAGE_ENTRY_COUNT
      modifies this`free_page_frame_count, mapped, mapped_address, mapped_dir, page_dir
      ensures Valid() && (r <==> Unused in old(Frames()))
      ensures r ==> Frames() == old(Frames())[FirstUnused(old(Frames()), 0) := Owned(page_dir, virtual_addr)]
      ensures r ==>
        page_dir.table == old(page_dir.table)[PageIndex(virtual_addr) := UserEntry(FirstUnused(old(Frames()), 0))]
      ensures !r ==> Frames() == old(Frames()) && page_dir.table == old(page_dir.table)
      ensures r ==>
        var e := page_dir.table[(virtual_addr / 0x40_0000) % 1024];
        && e.present && e.write && e.user && e.use_pagesize_4_mb
        && e.lower_address < |Frames()| == |old(Frames())| && old(Frames())[e.lower_address] == Unused
        && (forall j :: 0 <= j < e.lower_address ==> old(Frames())[j] != Unused)
        && Frames()[e.lower_address] == Owned(page_dir, virtual_addr)
    {
      ghost var us := Frames();
      InUseBound(us);
      if free_page_frame_count == 0 { return false; }
      var i := 0;
      while i < PAGE_FRAME_MAX_COUNT
        invariant 0 <= i <= PAGE_FRAME_MAX_COUNT
        invariant forall j :: 0 <= j < i ==> us[j] != Unused
      {
        if mapped[i] == false { break; }
        i := i + 1;
      }
      if i == PAGE_FRAME_MAX_COUNT { return false; }
      assert us[i] == Unused && FirstUnused(us, 0) == i;
      UpdateEntry(page_dir, i * PAGE_FRAME_SIZE, virtual_addr, Entry(true, true, true, true, 0));
      PageIndexOf(i);
      SetFrame(i, true, page_dir, virtual_addr, free_page_frame_count - 1);
      r := true;
    }

    /** The four assignments that record a change of one frame. */
    method SetFrame(i: nat, used: bool, dir: PageDirectory?, address: nat, count: nat)
      requires Valid() && 2 <= i < PAGE_FRAME_MAX_COUNT && (used <==> dir != null) && (!used ==> address == 0)
      requires used != mapped[i] && count == free_page_frame_count + if used then -1 else 1
      modifies this`free_page_frame_count, mapped, mapped_address, mapped_dir
      ensures Valid()
      ensures Frames() == old(Frames())[i := if dir == null then Unused else Owned(dir, address)]
    {
      ghost var us := Frames();
      mapped_address[i] := address;
      mapped_dir[i] := dir;
      mapped[i] := used;
      free_page_frame_count := count;
      ghost var u := if dir == null then Unused else Owned(dir, address);
      assert Frames() == us[i := u];
      InUseUpdate(us, i, u);
    }

    /** Succeeds exactly when a frame is recorded for this directory and address, and then takes it back. */
    method FreeFrame(page_dir: PageDirectory, virtual_addr: nat) returns (r: bool)
      requires Valid() && page_dir in dirs && |page_dir.table| == PAGE_ENTRY_COUNT
      modifies this`free_page_frame_count, mapped, mapped_address, mapped_dir, page_dir
      ensures Valid() && (r <==> Owned(page_dir, virtual_addr) in old(Frames()))
      ensures r ==> Frames() == old(Frames())[Find(old(Frames()), Owned(page_dir, virtual_addr), 0) := Unused]
      ensures r ==> page_dir.table == old(page_dir.table)[PageIndex(virtual_addr) := NO_ENTRY]
      ensures !r ==> Frames() == old(Frames()) && page_dir.table == old(page_dir.table)
      ensures r ==> !page_dir.table[(virtual_addr / 0x40_0000) % 1024].present
    {
      ghost var us, u := Frames(), Owned(page_dir, virtual_addr);
      var i := 0;
      while i < PAGE_FRAME_MAX_COUNT
        invariant 0 <= i <= PAGE_FRAME_MAX_COUNT
        invariant forall j :: 0 <= j < i ==> us[j] != u
      {
        if mapped_address[i] == virtual_addr && mapped_dir[i] == page_dir { break; }
        i := i + 1;
      }
      if i == PAGE_FRAME_MAX_COUNT { return false; }
      assert us[i] == u && Find(us, u, 0) == i;
      UpdateEntry(page_dir, 0, virtual_addr, NO_ENTRY);
      SetFrame(i, false, null, 0, free_page_frame_count + 1);
      r := true;
    }

    /** `enough` says whether the kernel heap had room. */
    method CreateDirectory(enough: bool) returns (dir: PageDirectory?)
      requires Valid() && Exclusive(Frames(), Tables())
      modifies this`dirs
      ensures Valid() && Frames() == old(Frames()) && Exclusive(Frames(), Tables())
      ensures dir == null <==> !enough
      ensures dir == null ==> dirs == old(dirs)
      ensures dir != null ==> fresh(dir) && dirs == old(dirs) + {dir} && Tables() == old(Tables())[dir := Prefilled()]
      ensures dir != null ==> |dir.table| == 1024 && forall j :: 0 <= j < 1024 ==>
        dir.table[j] == if j == 0x300 then Entry(true, true, false, true, 0)
                        else if j == 0x3FF then Entry(true, true, false, true, 1)
                        else Entry(false, false, false, false, 0)
    {
      if !enough { return null; }
      dir := new PageDirectory();
      ghost var us, ts := Frames(), Tables();
      dirs := dirs + {dir};
      NewExclusive(us, ts, dir);
      assert Tables() == ts[dir := Prefilled()];
    }

    method FreeSlot(page_dir: PageDirectory, j: nat, ghost us0: seq<Use>, ghost ts0: Tables)
      requires Valid() && page_dir in dirs && |page_dir.table| == PAGE_ENTRY_COUNT && j < PAGE_FRAME_MAX_COUNT
      requires Exclusive(us0, ts0) && Frames() == ReleasedAll(us0, page_dir, j)
      requires Exclusive(Frames(), Tables())
      modifies this`free_page_frame_count, mapped, mapped_address, mapped_dir, page_dir
      ensures Valid() && |page_dir.table| == PAGE_ENTRY_COUNT
      ensures Frames() == ReleasedAll(us0, page_dir, j + 1)
      ensures Exclusive(Frames(), Tables())
    {
      hide Exclusive, ReleasedAll;
      ghost var us, ts := Frames(), Tables();
      ReleaseNext(us, ts, us0, ts0, page_dir, j);
      var entry := page_dir.table[j];
      assert ts[page_dir] == page_dir.table;
      if entry.present {
        var freed := FreeFrame(page_dir, PAGE_FRAME_SIZE * j);
        FreeExclusive(us, ts, Find(us, Owned(page_dir, PAGE_FRAME_SIZE * j), 0), page_dir, PAGE_FRAME_SIZE * j);
        assert Tables() == AllocatedTables(ts, page_dir, PAGE_FRAME_SIZE * j, NO_ENTRY);
      }
    }

    /** Takes back exactly the frames of the directory. */
    method FreeDirectory(page_dir: PageDirectory) returns (r: bool)
      requires Valid() && Exclusive(Frames(), Tables()) && page_dir in dirs
      modifies this, mapped, mapped_address, mapped_dir, page_dir
      ensures Valid() && Exclusive(Frames(), Tables())
      ensures dirs == old(dirs) - {page_dir} && Tables() == old(Tables()) - {page_dir}
      ensures Frames() == Disowned(old(Frames()), page_dir) && !r
      ensures var us := old(Frames());
        |Frames()| == |us| && forall i :: 0 <= i < |us| ==>
          Frames()[i] == if us[i].Owned? && us[i].dir == page_dir then Unused else us[i]
    {
      ghost var us0, ts0 := Frames(), Tables();
      assert us0 == ReleasedAll(us0, page_dir, 0);
      assert Tables()[page_dir] == page_dir.table;
      for j := 0 to PAGE_FRAME_MAX_COUNT
        invariant Valid() && page_dir in dirs && dirs == old(dirs) && |page_dir.table| == PAGE_ENTRY_COUNT
        invariant Frames() == ReleasedAll(us0, page_dir, j)
        invariant Exclusive(Frames(), Tables())
        invariant forall d <- dirs :: d != page_dir ==> d.table == old(d.table)
      {
        FreeSlot(page_dir, j, us0, ts0);
      }
      ghost var us, ts := Frames(), Tables();
      ReleasedIsDisowned(us0, ts0, page_dir);
      ForgetExclusive(us, ts, page_dir);
      page_dir.table := seq(PAGE_ENTRY_COUNT, _ => NO_ENTRY);
      dirs := dirs - {page_dir};
      assert Tables() == ts - {page_dir} == ts0 - {page_dir};
      assert Frames() == us;
      r := false;
    }
  }
}
