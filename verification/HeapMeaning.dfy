/** What an allocation and a free answer and leave behind, in the sizes and addresses of the blocks themselves. */
module HeapMeaning {
  import opened KernelHeap

  /** An allocation takes the first free block that is not smaller than the request with its padding, in 32 bits, and
      not smaller than 0x100 bytes. The block is cut when more than 0x114 bytes are left over. Without such a block
      nothing changes and the answer is NULL. */
  lemma AllocMeans(cs: seq<Cell>, size: nat, align: nat) returns (i: nat)
    requires align > 0
    ensures i <= |cs|
    ensures forall j :: 0 <= j < i && cs[j].Free? ==>
      var base := cs[j].addr + 20;
      var padding := if base % align == 0 then 0 else align - base % align;
      cs[j].size < (size + padding) % 0x1_0000_0000 || cs[j].size < 0x100
    ensures i == |cs| ==> Result(cs, size, align) == 0 && Alloc(cs, size, align) == cs
    ensures i < |cs| ==>
      var c, base := cs[i], cs[i].addr + 20;
      var padding := if base % align == 0 then 0 else align - base % align;
      var wrapped := (size + padding) % 0x1_0000_0000;
      var need := if wrapped < 0x100 then 0x100 else wrapped;
      var data := (base + padding) % 0x1_0000_0000;
      c.Free? && c.size >= need && Result(cs, size, align) == data
      && Alloc(cs, size, align) == cs[..i]
         + (if c.size - need > 0x114
            then [Live(c.addr, need, data, size, align), Free(base + need, c.size - need - 20)]
            else [Live(c.addr, c.size, data, size, align)])
         + cs[i + 1..]
  {
    i := FirstFit(cs, size, align, 0);
    forall j | 0 <= j < i && cs[j].Free?
      ensures var base := cs[j].addr + 20;
        var padding := if base % align == 0 then 0 else align - base % align;
        cs[j].size < (size + padding) % 0x1_0000_0000 || cs[j].size < 0x100
    {
      FitsMeans(cs[j], size, align);
    }
    if i < |cs| {
      FitsMeans(cs[i], size, align);
      TakenMeans(cs[i], size, align);
      hide Fits, Taken, Rest, Splits, Needed, Padding;
      assert Alloc(cs, size, align) == cs[..i] + ([Taken(cs[i], size, align)] + Rest(cs[i], size, align)) + cs[i + 1..];
    }
  }

  lemma FitsMeans(c: Cell, size: nat, align: nat)
    requires align > 0
    ensures var base := c.addr + 20;
      var padding := if base % align == 0 then 0 else align - base % align;
      Fits(c, size, align) <==> c.Free? && c.size >= (size + padding) % 0x1_0000_0000 && c.size >= 0x100
  {
  }

  lemma TakenMeans(c: Cell, size: nat, align: nat)
    requires align > 0 && Fits(c, size, align)
    ensures var base := c.addr + 20;
      var padding := if base % align == 0 then 0 else align - base % align;
      var wrapped := (size + padding) % 0x1_0000_0000;
      var need := if wrapped < 0x100 then 0x100 else wrapped;
      var data := (base + padding) % 0x1_0000_0000;
      c.size >= need && Taken(c, size, align).data == data
      && [Taken(c, size, align)] + Rest(c, size, align) ==
         if c.size - need > 0x114
         then [Live(c.addr, need, data, size, align), Free(base + need, c.size - need - 20)]
         else [Live(c.addr, c.size, data, size, align)]
  {
  }

  /** When nothing wraps, the answer is NULL exactly when every free block is too small. */
  lemma NullMeans(cs: seq<Cell>, lo: nat, hi: nat, size: nat, align: nat)
    requires Good(cs, lo, hi) && hi < 0x1_0000_0000 && align > 0 && size + align <= 0x1_0000_0000
    ensures Result(cs, size, align) == 0 <==> forall j :: 0 <= j < |cs| && cs[j].Free? ==>
      var base := cs[j].addr + 20;
      var padding := if base % align == 0 then 0 else align - base % align;
      cs[j].size < size + padding || cs[j].size < 0x100
  {
    forall j | 0 <= j < |cs|
      ensures Fits(cs[j], size, align) <==>
        var base := cs[j].addr + 20;
        var padding := if base % align == 0 then 0 else align - base % align;
        cs[j].Free? && cs[j].size >= size + padding && cs[j].size >= 0x100
    {
      FitsMeans(cs[j], size, align);
      SmallNoWrap(cs[j], size, align);
      InWord(size + Padding(cs[j].addr + HEADER, align));
    }
    var i := FirstFit(cs, size, align, 0);
    if i < |cs| {
      SmallNoWrap(cs[i], size, align);
      EndBound(cs, lo, hi, i);
      InWord(size + Padding(cs[i].addr + HEADER, align));
      InWord(cs[i].addr + HEADER + Padding(cs[i].addr + HEADER, align));
    }
  }

  /** A partition of the region in which no two neighbours are free is determined by its live blocks. */
  lemma {:induction false} TidyUnique(a: seq<Cell>, b: seq<Cell>, lo: nat, hi: nat)
    requires Tidy(a, lo, hi) && Tidy(b, lo, hi) && forall c: Cell :: c.Live? ==> (c in a <==> c in b)
    ensures a == b
    decreases |a|
  {
    SameFirst(a, b, lo, hi);
    if |a| > 1 {
      TidyTail(a, lo, hi);
      TidyTail(b, lo, hi);
      forall c: Cell | c.Live?
        ensures c in a[1..] <==> c in b[1..]
      {
        OtherThanFirst(a, lo, hi, c);
        OtherThanFirst(b, lo, hi, c);
      }
      TidyUnique(a[1..], b[1..], a[1].addr, hi);
    }
    assert a == [a[0]] + a[1..] && b == [b[0]] + b[1..];
  }

  lemma SameFirst(a: seq<Cell>, b: seq<Cell>, lo: nat, hi: nat)
    requires Tidy(a, lo, hi) && Tidy(b, lo, hi) && forall c: Cell :: c.Live? ==> (c in a <==> c in b)
    ensures a[0] == b[0] && (|a| > 1 <==> |b| > 1)
  {
    if a[0].Live? {
      LiveFirst(b, lo, hi, a[0]);
    } else if b[0].Live? {
      LiveFirst(a, lo, hi, b[0]);
    } else {
      FirstNotSmaller(a, b, lo, hi);
      FirstNotSmaller(b, a, lo, hi);
    }
    if |a| > 1 { EndBound(a, lo, hi, 1); assert Follows(a, 0); }
    if |b| > 1 { EndBound(b, lo, hi, 1); assert Follows(b, 0); }
  }

  /** A block at the start of the region is the first one. */
  lemma LiveFirst(b: seq<Cell>, lo: nat, hi: nat, c: Cell)
    requires Tidy(b, lo, hi) && c in b && c.addr == lo
    ensures b[0] == c
  {
    var j :| 0 <= j < |b| && b[j] == c;
    if j > 0 { Ordered(b, lo, hi, 0, j); }
  }

  lemma FirstNotSmaller(a: seq<Cell>, b: seq<Cell>, lo: nat, hi: nat)
    requires Tidy(a, lo, hi) && Tidy(b, lo, hi) && a[0].Free? && b[0].Free?
    requires forall c: Cell :: c.Live? ==> (c in a <==> c in b)
    ensures a[0].size >= b[0].size
  {
    EndBound(b, lo, hi, 0);
    if a[0].size < b[0].size {
      assert |a| > 1 && Follows(a, 0) && Apart(a, 0);
      assert a[1] in b;
      var j :| 0 <= j < |b| && b[j] == a[1];
      if j > 0 { Ordered(b, lo, hi, 0, j); }
      assert false;
    }
  }

  lemma TidyTail(a: seq<Cell>, lo: nat, hi: nat)
    requires Tidy(a, lo, hi) && |a| > 1
    ensures Tidy(a[1..], a[1].addr, hi) && a[1].addr == End(a[0])
  {
    var t := a[1..];
    assert Follows(a, 0);
    forall i | 0 <= i < |t| - 1
      ensures Follows(t, i) && Apart(t, i)
    {
      assert Follows(a, i + 1) && Apart(a, i + 1);
    }
  }

  lemma OtherThanFirst(a: seq<Cell>, lo: nat, hi: nat, c: Cell)
    requires Tidy(a, lo, hi) && |a| > 1
    ensures c in a[1..] <==> c in a && c != a[0]
  {
    if c in a[1..] {
      var j :| 0 <= j < |a[1..]| && a[1..][j] == c;
      Ordered(a, lo, hi, 0, j + 1);
    }
  }

  /** So a free is the only way to lose exactly the block of an address and keep such a partition. */
  lemma KfreedIsOnly(cs: seq<Cell>, lo: nat, hi: nat, address: nat, bs: seq<Cell>)
    requires Good(cs, lo, hi) && Tidy(bs, lo, hi)
    requires forall c: Cell :: c.Live? ==> (c in bs <==> c in cs && c.data != address)
    ensures bs == Kfreed(cs, address)
  {
    ApplyTidy(cs, lo, hi, Op.Release(address));
    KfreedLives(cs, lo, hi, address);
    var ks := Kfreed(cs, address);
    forall c: Cell | c.Live?
      ensures c in bs <==> c in ks
    {
      assert c in ks <==> c in Lives(ks);
      assert c in cs <==> c in Lives(cs);
    }
    TidyUnique(bs, ks, lo, hi);
  }
}
