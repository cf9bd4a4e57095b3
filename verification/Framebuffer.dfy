/** The layered text screen (src/kernel/c/text/framebuffer.c). */
module Framebuffer {
  const BUFFER_WIDTH := 80
  const BUFFER_HEIGHT := 25
  const NUL := '\0'

  // ---------- one cell through all the layers ----------

  /** The topmost character of a column of cells, the base layer's first; an empty cell lets the one below show. */
  function Topmost(cells: seq<char>): char {
    if cells == [] then NUL
    else if cells[|cells| - 1] != NUL then cells[|cells| - 1]
    else Topmost(cells[..|cells| - 1])
  }

  /** Some layer above `i` has a character here. */
  predicate Covered(cells: seq<char>, i: nat) { exists k :: i < k < |cells| && cells[k] != NUL }

  lemma {:induction false} TopmostBase(cells: seq<char>)
    requires cells != [] && cells[0] != NUL
    ensures Topmost(cells) != NUL
    decreases |cells|
  {
    if |cells| > 1 && cells[|cells| - 1] == NUL { TopmostBase(cells[..|cells| - 1]); }
  }

  /** Without anything above, the cells up to `i` decide. */
  lemma {:induction false} TopmostUncovered(cells: seq<char>, i: nat)
    requires i < |cells| && !Covered(cells, i)
    ensures Topmost(cells) == Topmost(cells[..i + 1])
    decreases |cells|
  {
    if i + 1 < |cells| {
      TopmostUncovered(cells[..|cells| - 1], i);
      assert cells[..|cells| - 1][..i + 1] == cells[..i + 1];
    } else {
      assert cells[..i + 1] == cells;
    }
  }

  /** What is below a cover does not show. */
  lemma {:induction false} TopmostCovered(cells: seq<char>, i: nat, c: char)
    requires i < |cells| && Covered(cells, i)
    ensures Topmost(cells[i := c]) == Topmost(cells)
    decreases |cells|
  {
    var n := |cells| - 1;
    assert i < n;
    if cells[n] == NUL {
      TopmostCovered(cells[..n], i, c);
      assert cells[i := c][..n] == cells[..n][i := c];
    }
  }

  lemma TopmostWritten(cells: seq<char>, i: nat, c: char)
    requires i < |cells| && !Covered(cells, i)
    ensures c != NUL ==> Topmost(cells[i := c]) == c
    ensures c == NUL ==> Topmost(cells[i := c]) == Topmost(cells[..i])
  {
    var cells' := cells[i := c];
    assert !Covered(cells', i) by {
      assert forall k :: i < k < |cells| ==> cells'[k] == cells[k];
    }
    TopmostUncovered(cells', i);
    assert cells'[..i + 1][..i] == cells[..i];
  }

  /** An empty layer makes no difference wherever it is. */
  lemma {:induction false} TopmostWithout(cells: seq<char>, i: nat)
    requires i < |cells| && cells[i] == NUL
    ensures Topmost(cells[..i] + cells[i + 1..]) == Topmost(cells)
    decreases |cells|
  {
    var n := |cells| - 1;
    var r := cells[..i] + cells[i + 1..];
    if i == n {
      assert r == cells[..n];
    } else {
      assert r[n - 1] == cells[n] && r[..n - 1] == cells[..n][..i] + cells[..n][i + 1..];
      if cells[n] == NUL { TopmostWithout(cells[..n], i); }
    }
  }

  lemma TopmostAppended(cells: seq<char>)
    ensures Topmost(cells + [NUL]) == Topmost(cells)
  {
    assert (cells + [NUL])[..|cells|] == cells;
  }

  /** The character the upward and downward searches look for. */
  lemma {:induction false} TopmostIs(cells: seq<char>, k: nat)
    requires k < |cells| && cells[k] != NUL && !Covered(cells, k)
    ensures Topmost(cells) == cells[k]
  {
    TopmostUncovered(cells, k);
    assert cells[..k + 1][k] == cells[k];
  }

  // ---------- the layers and the screen ----------

  class Layer {
    const buffer: array2<char>
    var next: Layer?
    var prev: Layer?

    constructor (c: char)
      ensures next == null && prev == null && fresh(buffer)
      ensures buffer.Length0 == BUFFER_HEIGHT && buffer.Length1 == BUFFER_WIDTH
      ensures forall row, col :: 0 <= row < BUFFER_HEIGHT && 0 <= col < BUFFER_WIDTH ==> buffer[row, col] == c
    {
      buffer := new char[BUFFER_HEIGHT, BUFFER_WIDTH]((_, _) => c);
      next, prev := null, null;
    }
  }

  predicate OnScreen(row: int, col: int) { 0 <= row < BUFFER_HEIGHT && 0 <= col < BUFFER_WIDTH }

  function Position(row: int, col: int): int { row * BUFFER_WIDTH + col }

  ghost predicate Linked(ls: seq<Layer>)
    reads ls
  {
    forall i {:trigger LinkedAt(ls, i)} :: 0 <= i < |ls| ==> LinkedAt(ls, i)
  }

  ghost predicate LinkedAt(ls: seq<Layer>, i: nat)
    requires i < |ls|
    reads ls
  {
    ls[i].next == (if i + 1 < |ls| then ls[i + 1] else null) && ls[i].prev == if i > 0 then ls[i - 1] else null
  }

  /** Layers and their buffers are all different and of screen size. */
  predicate Apart(ls: seq<Layer>) {
    && (forall i {:trigger ls[i]} :: 0 <= i < |ls| ==>
          ls[i].buffer.Length0 == BUFFER_HEIGHT && ls[i].buffer.Length1 == BUFFER_WIDTH)
    && forall i, j {:trigger ls[i], ls[j]} :: 0 <= i < j < |ls| ==> ls[i] != ls[j] && ls[i].buffer != ls[j].buffer
  }

  function Buffers(ls: seq<Layer>): set<object> { set l <- ls :: l.buffer }

  /** The cell at this place in every layer. */
  ghost function Column(ls: seq<Layer>, row: int, col: int): (r: seq<char>)
    requires Apart(ls) && OnScreen(row, col)
    reads Buffers(ls)
    ensures |r| == |ls| && forall i {:trigger r[i]} {:trigger ls[i]} :: 0 <= i < |ls| ==> r[i] == ls[i].buffer[row, col]
  {
    seq(|ls|, i requires 0 <= i < |ls| reads Buffers(ls) => ls[i].buffer[row, col])
  }

  /** What shows through a column. */
  function Composite(cells: seq<char>): char { Topmost(cells) }

  lemma CompositeWritten(cells: seq<char>, i: nat, c: char)
    requires i < |cells|
    ensures Covered(cells, i) ==> Composite(cells[i := c]) == Composite(cells)
    ensures !Covered(cells, i) ==> Composite(cells[i := c]) == if c != NUL then c else Composite(cells[..i])
  {
    if Covered(cells, i) { TopmostCovered(cells, i, c); } else { TopmostWritten(cells, i, c); }
  }

  /** A place of the screen: its column of cells, and whether the screen shows it. */
  datatype Place = Place(cells: seq<char>, shown: bool)

  /** The place once its base cell is overwritten: it then shows its column, unless a layer covers it and it did
      not show it before. */
  ghost function Over(p: Place, c: char): Place
    requires p.cells != []
  {
    Place(p.cells[0 := c], p.shown || !Covered(p.cells, 0))
  }

  /** The place once a character is put there without regard to the layers above. */
  ghost function Painted(p: Place, c: char): Place
    requires p.cells != []
  {
    Place(p.cells[0 := c], c == Composite(p.cells[0 := c]))
  }

  lemma PaintedShown(p: Place, c: char)
    requires p.cells != []
    ensures var q := Painted(p, c);
      (q.shown <==> !Covered(p.cells, 0) || Composite(p.cells) == c) && (Covered(q.cells, 0) <==> Covered(p.cells, 0))
  {
    CompositeWritten(p.cells, 0, c);
    assert forall k :: 0 < k < |p.cells| ==> p.cells[0 := c][k] == p.cells[k];
    if !Covered(p.cells, 0) && c == NUL { assert Composite(p.cells[..0]) == NUL; }
  }

  class Screen {
    const framebuffer_base: array<char>
    var base_layer: Layer
    var row: int
    var col: int
    ghost var layers: seq<Layer>

    ghost predicate Valid()
      reads this, layers
    {
      && framebuffer_base.Length == BUFFER_HEIGHT * BUFFER_WIDTH && OnScreen(row, col)
      && layers != [] && layers[0] == base_layer && Apart(layers) && Linked(layers)
    }

    ghost function Cells(row: int, col: int): seq<char>
      requires Apart(layers) && OnScreen(row, col)
      reads this, Buffers(layers)
    {
      Column(layers, row, col)
    }

    /** This place of the screen shows the topmost character of its column. */
    ghost predicate ShownAt(row: int, col: int)
      requires Apart(layers) && OnScreen(row, col) && framebuffer_base.Length == BUFFER_HEIGHT * BUFFER_WIDTH
      reads this, Buffers(layers), framebuffer_base
    {
      framebuffer_base[Position(row, col)] == Composite(Cells(row, col))
    }

    /** framebuffer_initialize_base_layer: one blank layer, shown everywhere. */
    constructor ()
      ensures Valid() && Filled() && AllShown() && fresh(layers) && |layers| == 1 && row == col == 0
      ensures forall r, k :: 0 <= r < 25 && 0 <= k < 80 ==>
        base_layer.buffer[r, k] == framebuffer_base[r * 80 + k] == ' '
    {
      framebuffer_base := new char[BUFFER_HEIGHT * BUFFER_WIDTH];
      var layer := new Layer('\U{2020}'); // memset fills 16-bit cells byte by byte
      base_layer, layers, row, col := layer, [layer], 0, 0;
      new;
      Clear();
      forall r, k | 0 <= r < 25 && 0 <= k < 80
        ensures base_layer.buffer[r, k] == framebuffer_base[r * 80 + k] == ' '
      {
        ShownMeans(r, k, 0);
      }
    }

    method FramebufferWrite(row: int, col: int, c: char)
      requires framebuffer_base.Length == BUFFER_HEIGHT * BUFFER_WIDTH && OnScreen(row, col) && Apart(layers)
      modifies framebuffer_base
      ensures forall r, k {:trigger Cells(r, k)} :: OnScreen(r, k) ==> Cells(r, k) == old(Cells(r, k))
      ensures framebuffer_base[Position(row, col)] == c
      ensures forall r, k {:trigger Position(r, k)} :: OnScreen(r, k) && (r != row || k != col) ==>
        framebuffer_base[Position(r, k)] == old(framebuffer_base[Position(r, k)])
    {
      framebuffer_base[row * BUFFER_WIDTH + col] := c;
    }

    /** Lines 79-86 and 100-104: whether a layer above has a character here. */
    method SearchUp(layer: Layer, ghost i: nat, row: int, col: int) returns (overided: bool)
      requires Valid() && i < |layers| && layers[i] == layer && OnScreen(row, col)
      ensures overided <==> Covered(Cells(row, col), i)
    {
      ghost var cells := Cells(row, col);
      assert LinkedAt(layers, i);
      var current := layer.next;
      ghost var k := i + 1;
      while current != null
        invariant i < k <= |layers| && current == if k < |layers| then layers[k] else null
        invariant forall j :: i < j < k ==> cells[j] == NUL
        decreases |layers| - k
      {
        assert LinkedAt(layers, k) && cells[k] == current.buffer[row, col];
        if current.buffer[row, col] != NUL { return true; }
        current := current.next;
        k := k + 1;
      }
      overided := false;
    }

    /** Lines 90-94: the nearest character below; the base layer has one. */
    method SearchDown(layer: Layer, ghost i: nat, row: int, col: int) returns (c: char)
      requires Valid() && 0 < i < |layers| && layers[i] == layer && OnScreen(row, col)
      requires base_layer.buffer[row, col] != NUL
      ensures c == Composite(Cells(row, col)[..i])
    {
      ghost var cells := Cells(row, col);
      assert LinkedAt(layers, i) && cells[0] == base_layer.buffer[row, col];
      var current := layer.prev;
      ghost var k: int := i - 1;
      while current != null
        invariant 0 <= k < i && current == layers[k]
        invariant forall j :: k < j < i ==> cells[j] == NUL
        decreases k
      {
        assert LinkedAt(layers, k) && cells[k] == current.buffer[row, col];
        if current.buffer[row, col] != NUL { break; }
        current := current.prev;
        k := k - 1;
      }
      TopmostIs(cells[..i], k);
      c := current.buffer[row, col];
    }

    method SetCell(layer: Layer, ghost i: nat, row: int, col: int, c: char)
      requires Valid() && i < |layers| && layers[i] == layer && OnScreen(row, col)
      modifies layer.buffer
      ensures Valid()
      ensures Cells(row, col) == old(Cells(row, col))[i := c] && framebuffer_base[..] == old(framebuffer_base[..])
      ensures forall r, k {:trigger Cells(r, k)} :: OnScreen(r, k) && (r != row || k != col) ==>
        Cells(r, k) == old(Cells(r, k))
    {
      assert forall j {:trigger layers[j]} :: 0 <= j < |layers| && j != i ==> layers[j].buffer != layers[i].buffer;
      layer.buffer[row, col] := c;
    }

    /** What is shown where, in terms of the screen and the columns. */
    twostate lemma ShownChange(new row: int, new col: int)
      requires Valid() && layers == old(layers) && OnScreen(row, col)
      requires forall r, k {:trigger Cells(r, k)} :: OnScreen(r, k) && (r != row || k != col) ==>
        Cells(r, k) == old(Cells(r, k))
      requires forall r, k {:trigger Position(r, k)} :: OnScreen(r, k) && (r != row || k != col) ==>
        framebuffer_base[Position(r, k)] == old(framebuffer_base[Position(r, k)])
      ensures forall r, k {:trigger ShownAt(r, k)} :: OnScreen(r, k) && (r != row || k != col) ==>
        ShownAt(r, k) == old(ShownAt(r, k))
    {
    }

    /** Writes or erases one cell. The screen is repainted there unless a layer above covers the cell. Erasing
        needs a character below: the source dereferences NULL on the base layer. */
    method WriteToLayer(layer: Layer, ghost i: nat, row: int, col: int, c: char)
      requires Valid() && i < |layers| && layers[i] == layer && OnScreen(row, col)
      requires c == NUL ==> base_layer.buffer[row, col] != NUL && (i > 0 || Covered(Cells(row, col), i))
      modifies framebuffer_base, layer.buffer
      ensures Cells(row, col) == old(Cells(row, col))[i := c]
      ensures ShownAt(row, col) <==> old(ShownAt(row, col)) || !Covered(old(Cells(row, col)), i)
      ensures forall r, k {:trigger Cells(r, k)} :: OnScreen(r, k) && (r != row || k != col) ==>
        Cells(r, k) == old(Cells(r, k))
      ensures forall r, k {:trigger ShownAt(r, k)} :: OnScreen(r, k) && (r != row || k != col) ==>
        ShownAt(r, k) == old(ShownAt(r, k))
      ensures Valid() && (old(AllShown()) ==> AllShown())
      ensures old(Filled()) && (i > 0 || c != NUL) ==> Filled()
    {
      PaintCell(layer, i, row, col, c);
      AllStillShown(row, col);
      if old(Filled()) && (i > 0 || c != NUL) { StillFilled(i, row, col, c); }
    }

    twostate lemma AllStillShown(new row: int, new col: int)
      requires old(Valid()) && Valid() && layers == old(layers) && OnScreen(row, col)
      requires old(ShownAt(row, col)) ==> ShownAt(row, col)
      requires forall r, k {:trigger ShownAt(r, k)} :: OnScreen(r, k) && (r != row || k != col) ==>
        ShownAt(r, k) == old(ShownAt(r, k))
      ensures old(AllShown()) ==> AllShown()
    {
      hide ShownAt, Linked;
      if old(AllShown()) {
        forall r, k | OnScreen(r, k)
          ensures At(r, k).shown
        {
          assert old(At(r, k)).shown == old(ShownAt(r, k)) && At(r, k).shown == ShownAt(r, k);
        }
      }
    }

    twostate lemma StillFilled(new i: nat, new row: int, new col: int, new c: char)
      requires old(Valid()) && old(Filled()) && Valid() && layers == old(layers) && OnScreen(row, col)
      requires i < |layers| && (i > 0 || c != NUL) && Cells(row, col) == old(Cells(row, col))[i := c]
      requires forall r, k {:trigger Cells(r, k)} :: OnScreen(r, k) && (r != row || k != col) ==>
        Cells(r, k) == old(Cells(r, k))
      ensures Filled()
    {
      forall r, k | OnScreen(r, k)
        ensures At(r, k).cells[0] != NUL
      {
        assert old(At(r, k)).cells[0] != NUL;
        assert At(r, k).cells == Cells(r, k);
      }
    }

    method PaintCell(layer: Layer, ghost i: nat, row: int, col: int, c: char)
      requires Valid() && i < |layers| && layers[i] == layer && OnScreen(row, col)
      requires c == NUL ==> base_layer.buffer[row, col] != NUL && (i > 0 || Covered(Cells(row, col), i))
      modifies framebuffer_base, layer.buffer
      ensures Cells(row, col) == old(Cells(row, col))[i := c]
      ensures ShownAt(row, col) <==> old(ShownAt(row, col)) || !Covered(old(Cells(row, col)), i)
      ensures forall r, k {:trigger Cells(r, k)} :: OnScreen(r, k) && (r != row || k != col) ==>
        Cells(r, k) == old(Cells(r, k))
      ensures forall r, k {:trigger ShownAt(r, k)} :: OnScreen(r, k) && (r != row || k != col) ==>
        ShownAt(r, k) == old(ShownAt(r, k))
    {
      ghost var cells := Cells(row, col);
      assert |cells| == |layers|;
      hide Composite, Covered, Valid;
      var overided := SearchUp(layer, i, row, col);
      CompositeWritten(cells, i, c);
      var shown := c;
      if c == NUL && !overided {
        shown := SearchDown(layer, i, row, col);
      }
      assert Cells(row, col) == cells;
      assert !overided ==> shown == Composite(cells[i := c]);
      Repaint(layer, i, row, col, !overided, shown, c);
      assert ShownAt(row, col) <==> framebuffer_base[Position(row, col)] == Composite(cells[i := c]);
    }

    /** Lines 95-98 and 106-107. */
    method Repaint(layer: Layer, ghost i: nat, row: int, col: int, paint: bool, shown: char, c: char)
      requires Valid() && i < |layers| && layers[i] == layer && OnScreen(row, col)
      modifies framebuffer_base, layer.buffer
      ensures Cells(row, col) == old(Cells(row, col))[i := c]
      ensures framebuffer_base[Position(row, col)] == if paint then shown else old(framebuffer_base[Position(row, col)])
      ensures forall r, k {:trigger Cells(r, k)} :: OnScreen(r, k) && (r != row || k != col) ==>
        Cells(r, k) == old(Cells(r, k))
      ensures forall r, k {:trigger ShownAt(r, k)} :: OnScreen(r, k) && (r != row || k != col) ==>
        ShownAt(r, k) == old(ShownAt(r, k))
    {
      if paint {
        FramebufferWrite(row, col, shown);
      }
      assert Valid();
      SetCell(layer, i, row, col, c);
      hide Cells;
      ShownChange(row, col);
    }

    ghost function At(r: int, k: int): (p: Place)
      requires Valid() && OnScreen(r, k)
      reads this, layers, Buffers(layers), framebuffer_base
      ensures p.cells != [] && |p.cells| == |layers| && p.cells[0] == base_layer.buffer[r, k]
    {
      Place(Cells(r, k), ShownAt(r, k))
    }

    /** A place of the screen shows its column when it holds the character of the topmost layer that has one there. */
    lemma ShownMeans(r: int, k: int, i: nat)
      requires Valid() && 0 <= r < 25 && 0 <= k < 80 && i < |layers| && layers[i].buffer[r, k] != NUL
      requires forall j {:trigger layers[j]} :: i < j < |layers| ==> layers[j].buffer[r, k] == NUL
      ensures At(r, k).shown <==> framebuffer_base[r * 80 + k] == layers[i].buffer[r, k]
      ensures |At(r, k).cells| == |layers|
      ensures forall j {:trigger layers[j]} :: 0 <= j < |layers| ==> At(r, k).cells[j] == layers[j].buffer[r, k]
    {
      TopmostIs(Cells(r, k), i);
    }

    /** The base layer has a character everywhere. */
    ghost predicate Filled()
      requires Valid()
      reads this, layers, Buffers(layers), framebuffer_base
    {
      forall r, k {:trigger At(r, k)} :: OnScreen(r, k) ==> At(r, k).cells[0] != NUL
    }

    /** Lines 119-134; the cursor ports are left out. */
    method SetCursor(row: int, col: int)
      requires Valid()
      modifies this`row, this`col
      ensures Valid() && forall r, k {:trigger At(r, k)} :: OnScreen(r, k) ==> At(r, k) == old(At(r, k))
      ensures this.row == if row == -1 then old(this.row) else if row < 0 then 0
        else if row > BUFFER_HEIGHT - 1 then BUFFER_HEIGHT - 1 else row
      ensures this.col == if col == -1 then old(this.col) else if col < 0 then 0
        else if col > BUFFER_WIDTH - 1 then BUFFER_WIDTH - 1 else col
    {
      var row, col := row, col;
      if row != -1 {
        if row < 0 { row := 0; }
        if row > BUFFER_HEIGHT - 1 { row := BUFFER_HEIGHT - 1; }
      } else {
        row := this.row;
      }
      if col != -1 {
        if col < 0 { col := 0; }
        if col > BUFFER_WIDTH - 1 { col := BUFFER_WIDTH - 1; }
      } else {
        col := this.col;
      }
      this.row := row;
      this.col := col;
      forall r, k | OnScreen(r, k)
        ensures At(r, k) == old(At(r, k))
      {
        assert Cells(r, k) == old(Cells(r, k));
      }
    }

    method Overwrite(row: int, col: int, c: char)
      requires Valid() && OnScreen(row, col) && c != NUL
      modifies framebuffer_base, base_layer.buffer
      ensures Valid() && At(row, col) == Over(old(At(row, col)), c)
      ensures forall r, k {:trigger At(r, k)} :: OnScreen(r, k) && (r != row || k != col) ==> At(r, k) == old(At(r, k))
    {
      WriteToLayer(base_layer, 0, row, col, c);
    }

    /** Lines 159-162: one row of the scroll. */
    method ScrollRow(row: int)
      requires Valid() && Filled() && 0 <= row < BUFFER_HEIGHT - 1
      modifies framebuffer_base, base_layer.buffer
      ensures Valid()
      ensures forall k {:trigger At(row, k)} :: 0 <= k < BUFFER_WIDTH ==>
        At(row, k) == Over(old(At(row, k)), old(At(row + 1, k)).cells[0])
      ensures forall r, k {:trigger At(r, k)} :: OnScreen(r, k) && r != row ==> At(r, k) == old(At(r, k))
    {
      hide At, Over;
      var col := 0;
      while col < BUFFER_WIDTH
        invariant 0 <= col <= BUFFER_WIDTH && Valid()
        invariant forall k {:trigger At(row, k)} :: 0 <= k < col ==>
          At(row, k) == Over(old(At(row, k)), old(At(row + 1, k)).cells[0])
        invariant forall r, k {:trigger At(r, k)} :: OnScreen(r, k) && (r != row || k >= col) ==>
          At(r, k) == old(At(r, k))
      {
        assert At(row + 1, col) == old(At(row + 1, col)) && At(row, col) == old(At(row, col));
        var value := base_layer.buffer[row + 1, col];
        Overwrite(row, col, value);
        col := col + 1;
      }
    }

    /** Lines 165-167, and one row of framebuffer_clear. */
    method BlankRow(row: int)
      requires Valid() && 0 <= row < BUFFER_HEIGHT
      modifies framebuffer_base, base_layer.buffer
      ensures Valid()
      ensures forall k {:trigger At(row, k)} :: 0 <= k < BUFFER_WIDTH ==> At(row, k) == Over(old(At(row, k)), ' ')
      ensures forall r, k {:trigger At(r, k)} :: OnScreen(r, k) && r != row ==> At(r, k) == old(At(r, k))
    {
      hide At, Valid, Over;
      var col := 0;
      while col < BUFFER_WIDTH
        invariant 0 <= col <= BUFFER_WIDTH && Valid()
        invariant forall k {:trigger At(row, k)} :: 0 <= k < col ==> At(row, k) == Over(old(At(row, k)), ' ')
        invariant forall r, k {:trigger At(r, k)} :: OnScreen(r, k) && (r != row || k >= col) ==>
          At(r, k) == old(At(r, k))
      {
        assert At(row, col) == old(At(row, col));
        Overwrite(row, col, ' ');
        col := col + 1;
      }
    }

    /** Every row of the base layer moves up by one and the last becomes blank. */
    method ScrollUp()
      requires Valid() && Filled()
      modifies framebuffer_base, base_layer.buffer
      ensures Valid() && Filled()
      ensures forall r, k {:trigger At(r, k)} :: OnScreen(r, k) ==>
        At(r, k) == Over(old(At(r, k)), if r + 1 < BUFFER_HEIGHT then old(At(r + 1, k)).cells[0] else ' ')
      ensures forall r, k :: 0 <= r < 25 && 0 <= k < 80 ==>
        base_layer.buffer[r, k] == if r < 24 then old(base_layer.buffer[r + 1, k]) else ' '
      ensures old(AllShown()) ==> AllShown()
    {
      hide At, Valid;
      var row := 0;
      while row < BUFFER_HEIGHT - 1
        invariant 0 <= row <= BUFFER_HEIGHT - 1 && Valid()
        invariant forall r, k {:trigger At(r, k)} :: OnScreen(r, k) && r < row ==>
          At(r, k) == Over(old(At(r, k)), old(At(r + 1, k)).cells[0])
        invariant forall r, k {:trigger At(r, k)} :: OnScreen(r, k) && r >= row ==> At(r, k) == old(At(r, k))
      {
        ScrollRow(row);
        row := row + 1;
      }
      BlankRow(BUFFER_HEIGHT - 1);
      PlacesAfter(true);
    }

    /** The whole base layer becomes blank. */
    method Clear()
      requires Valid()
      modifies this`row, this`col, framebuffer_base, base_layer.buffer
      ensures Valid() && Filled() && row == col == 0
      ensures forall r, k {:trigger At(r, k)} :: OnScreen(r, k) ==> At(r, k) == Over(old(At(r, k)), ' ')
      ensures forall r, k :: 0 <= r < 25 && 0 <= k < 80 ==> base_layer.buffer[r, k] == ' '
      ensures old(AllShown()) ==> AllShown()
    {
      hide At, Valid;
      var i := 0;
      while i < BUFFER_HEIGHT
        invariant 0 <= i <= BUFFER_HEIGHT && Valid()
        invariant forall r, k {:trigger At(r, k)} :: OnScreen(r, k) && r < i ==> At(r, k) == Over(old(At(r, k)), ' ')
        invariant forall r, k {:trigger At(r, k)} :: OnScreen(r, k) && r >= i ==> At(r, k) == old(At(r, k))
      {
        BlankRow(i);
        i := i + 1;
      }
      SetCursor(0, 0);
      BaseCells();
    }

    /** Lines 181-185: the cell under the cursor is painted even when a layer covers it. */
    method PutCell(c: char)
      requires Valid()
      modifies framebuffer_base, base_layer.buffer
      ensures Valid() && At(row, col) == Painted(old(At(row, col)), c)
      ensures forall r, k {:trigger At(r, k)} :: OnScreen(r, k) && (r != row || k != col) ==> At(r, k) == old(At(r, k))
      ensures framebuffer_base[row * 80 + col] == c
      ensures forall r, k :: 0 <= r < 25 && 0 <= k < 80 ==>
        base_layer.buffer[r, k] == if r == row && k == col then c else old(base_layer.buffer[r, k])
    {
      Repaint(base_layer, 0, row, col, true, c, c);
      BaseCells();
    }

    /** The base cells are the first ones of the places. */
    twostate lemma BaseCells()
      requires old(Valid()) && Valid() && layers == old(layers) && base_layer == old(base_layer)
      ensures forall r, k {:trigger base_layer.buffer[r, k]} :: OnScreen(r, k) ==>
        base_layer.buffer[r, k] == At(r, k).cells[0] && old(base_layer.buffer[r, k]) == old(At(r, k)).cells[0]
    {
      forall r, k {:trigger base_layer.buffer[r, k]} | OnScreen(r, k)
        ensures base_layer.buffer[r, k] == At(r, k).cells[0]
        ensures old(base_layer.buffer[r, k]) == old(At(r, k)).cells[0]
      {
      }
    }

    /** One character at the cursor: the base layer holds it there and nothing else changes, but that behind the last
        place of the screen every row moves up by one and the last becomes blank. A screen that was the composite of
        the layers still is exactly when no layer covers the cell, or shows the same character there. */
    method Put(c: char)
      requires Valid() && Filled() && c != NUL
      modifies this`row, this`col, framebuffer_base, base_layer.buffer
      ensures Valid() && Filled()
      ensures var p := old(At(row, col)); old(AllShown()) ==>
        (AllShown() <==> !Covered(p.cells, 0) || Composite(p.cells) == c)
      ensures old(row) != 24 || old(col) != 79 ==>
        framebuffer_base[old(row) * 80 + old(col)] == c == base_layer.buffer[old(row), old(col)]
        && forall r, k :: 0 <= r < 25 && 0 <= k < 80 && (r != old(row) || k != old(col)) ==>
           base_layer.buffer[r, k] == old(base_layer.buffer[r, k])
      ensures old(row) == 24 && old(col) == 79 ==>
        base_layer.buffer[23, 79] == c
        && (forall r, k :: 0 <= r < 24 && 0 <= k < 80 && (r != 23 || k != 79) ==>
              base_layer.buffer[r, k] == old(base_layer.buffer[r + 1, k]))
        && forall k :: 0 <= k < 80 ==> base_layer.buffer[24, k] == ' '
      ensures col == (if old(col) == 79 then 0 else old(col) + 1)
      ensures row == if old(col) == 79 && old(row) < 24 then old(row) + 1 else old(row)
    {
      ghost var p, r0, k0 := At(row, col), row, col;
      PutCell(c);
      PaintedShown(p, c);
      assert Filled();
      hide *;
      AdvanceCursor();
      assert At(r0, k0).shown <==> !Covered(p.cells, 0) || Composite(p.cells) == c;
    }

    /** What the places hold and show after the cursor went on. */
    twostate lemma PlacesAfter(new scrolled: bool)
      requires old(Valid()) && Valid() && layers == old(layers) && base_layer == old(base_layer)
      requires !scrolled ==> forall r, k {:trigger At(r, k)} :: OnScreen(r, k) ==> At(r, k) == old(At(r, k))
      requires scrolled ==> forall r, k {:trigger At(r, k)} :: OnScreen(r, k) ==>
        At(r, k) == Over(old(At(r, k)), if r < 24 then old(At(r + 1, k)).cells[0] else ' ')
      ensures forall r, k {:trigger At(r, k)} :: OnScreen(r, k) ==>
        At(r, k).shown == (old(At(r, k)).shown || (scrolled && !Covered(old(At(r, k)).cells, 0)))
      ensures forall r, k :: 0 <= r < 25 && 0 <= k < 80 ==>
        base_layer.buffer[r, k] ==
        if !scrolled then old(base_layer.buffer[r, k]) else if r < 24 then old(base_layer.buffer[r + 1, k]) else ' '
    {
      forall r, k | OnScreen(r, k)
        ensures base_layer.buffer[r, k] == At(r, k).cells[0]
        ensures old(base_layer.buffer[r, k]) == old(At(r, k)).cells[0]
      {
      }
    }

    /** Lines 187-201. */
    method AdvanceCursor()
      requires Valid() && Filled()
      modifies this`row, this`col, framebuffer_base, base_layer.buffer
      ensures Valid() && Filled()
      ensures var scrolled := old(row) == 24 && old(col) == 79;
        && (forall r, k {:trigger At(r, k)} :: OnScreen(r, k) ==>
              At(r, k).shown == (old(At(r, k)).shown || (scrolled && !Covered(old(At(r, k)).cells, 0))))
        && (!scrolled ==> framebuffer_base[..] == old(framebuffer_base[..]))
        && forall r, k :: 0 <= r < 25 && 0 <= k < 80 ==>
             base_layer.buffer[r, k] ==
             if !scrolled then old(base_layer.buffer[r, k])
             else if r < 24 then old(base_layer.buffer[r + 1, k]) else ' '
      ensures col == (if old(col) == 79 then 0 else old(col) + 1)
      ensures row == if old(col) == 79 && old(row) < 24 then old(row) + 1 else old(row)
    {
      assert OnScreen(row, col);
      ghost var scrolled := row == 24 && col == 79;
      hide At, Valid, Covered;
      var next_col := col;
      var next_row := row;
      next_col := next_col + 1;
      if next_col == BUFFER_WIDTH {
        next_col := 0;
        next_row := next_row + 1;
      }
      if next_row == BUFFER_HEIGHT {
        ScrollUp();
        next_row := BUFFER_HEIGHT - 1;
      }
      SetCursor(next_row, next_col);
      PlacesAfter(scrolled);
    }

    /** The screen is the composite of the layers. */
    ghost predicate AllShown()
      requires Valid()
      reads this, layers, Buffers(layers), framebuffer_base
    {
      forall r, k {:trigger At(r, k)} :: OnScreen(r, k) ==> At(r, k).shown
    }

    /** A new empty layer on top. `room` says whether the kernel heap had memory. */
    method CreateLayer(room: bool) returns (layer: Layer?)
      requires Valid()
      modifies this`layers, layers
      ensures Valid() && base_layer == old(base_layer) && (layer == null <==> !room)
      ensures layer == null ==> layers == old(layers)
      ensures layer != null ==> fresh(layer) && fresh(layer.buffer) && layers == old(layers) + [layer]
      ensures forall r, k {:trigger At(r, k)} :: OnScreen(r, k) ==>
        At(r, k) == if layer == null then old(At(r, k)) else Place(old(At(r, k)).cells + [NUL], old(At(r, k)).shown)
    {
      if !room { return null; }
      hide At, Valid, Buffers;
      layer := NewLayer();
      var current := LastLayer();
      Attach(current, layer);
    }

    /** Lines 35-40. */
    method NewLayer() returns (layer: Layer)
      requires Valid()
      ensures Valid() && forall r, k {:trigger At(r, k)} :: OnScreen(r, k) ==> At(r, k) == old(At(r, k))
      ensures fresh(layer) && fresh(layer.buffer) && layer !in layers && layer.buffer !in Buffers(layers)
      ensures layer.next == null
      ensures layer.buffer.Length0 == BUFFER_HEIGHT && layer.buffer.Length1 == BUFFER_WIDTH
      ensures forall r, k :: OnScreen(r, k) ==> layer.buffer[r, k] == NUL
    {
      layer := new Layer(NUL);
      forall r, k | OnScreen(r, k)
        ensures At(r, k) == old(At(r, k))
      {
        assert Cells(r, k) == old(Cells(r, k));
      }
    }

    /** Lines 42-44. */
    method LastLayer() returns (current: Layer)
      requires Valid()
      ensures current == layers[|layers| - 1]
    {
      ghost var i: nat := 0;
      current := base_layer;
      while current.next != null
        invariant i < |layers| && current == layers[i]
        decreases |layers| - i
      {
        assert LinkedAt(layers, i);
        current := current.next;
        i := i + 1;
      }
      assert LinkedAt(layers, i);
    }

    /** Lines 45-46. */
    method Attach(current: Layer, layer: Layer)
      requires Valid() && current == layers[|layers| - 1] && layer.next == null
      requires layer !in layers && layer.buffer !in Buffers(layers)
      requires layer.buffer.Length0 == BUFFER_HEIGHT && layer.buffer.Length1 == BUFFER_WIDTH
      requires forall r, k :: OnScreen(r, k) ==> layer.buffer[r, k] == NUL
      modifies this`layers, current, layer
      ensures Valid() && layers == old(layers) + [layer]
      ensures forall r, k {:trigger At(r, k)} :: OnScreen(r, k) ==>
        At(r, k) == Place(old(At(r, k)).cells + [NUL], old(At(r, k)).shown)
    {
      ghost var ls := layers;
      assert forall j {:trigger ls[j]} :: 0 <= j < |ls| ==> ls[j].buffer in Buffers(ls);
      current.next := layer;
      layer.prev := current;
      AppendedLinks(ls, layer);
      layers := ls + [layer];
      assert Apart(layers);
      hide Linked;
      PlacesAppended(layer);
    }

    twostate lemma PlacesAppended(new layer: Layer)
      requires old(Valid()) && Valid() && layers == old(layers) + [layer]
      requires layer.buffer.Length0 == BUFFER_HEIGHT && layer.buffer.Length1 == BUFFER_WIDTH
      requires forall r, k :: OnScreen(r, k) ==> layer.buffer[r, k] == NUL
      requires framebuffer_base[..] == old(framebuffer_base[..])
      requires forall l <- old(layers), r, k :: OnScreen(r, k) ==> l.buffer[r, k] == old(l.buffer[r, k])
      ensures forall r, k {:trigger At(r, k)} :: OnScreen(r, k) ==>
        At(r, k) == Place(old(At(r, k)).cells + [NUL], old(At(r, k)).shown)
    {
      forall r, k | OnScreen(r, k)
        ensures At(r, k) == Place(old(At(r, k)).cells + [NUL], old(At(r, k)).shown)
      {
        var cells := old(Cells(r, k));
        assert Cells(r, k) == cells + [NUL] by {
          assert forall j {:trigger cells[j]} :: 0 <= j < |cells| ==> Cells(r, k)[j] == cells[j];
        }
        CompositeAppended(cells);
        assert framebuffer_base[..][Position(r, k)] == old(framebuffer_base[..])[Position(r, k)];
      }
    }

    /** Erases the layer and takes it out of the list; a layer that is not in the list is left alone. What it
        covered shows again: the screen is the composite of the layers that remain. */
    method RemoveLayer(layer: Layer)
      requires Valid() && Filled() && layer != base_layer
      modifies this`layers, layers, framebuffer_base, layer.buffer
      ensures Valid() && Filled() && base_layer == old(base_layer)
      ensures layer !in old(layers) ==>
        layers == old(layers) && forall r, k {:trigger At(r, k)} :: OnScreen(r, k) ==> At(r, k) == old(At(r, k))
      ensures layer in old(layers) ==>
        var i := IndexOf(old(layers), layer); layers == old(layers)[..i] + old(layers)[i + 1..]
      ensures old(AllShown()) ==> AllShown()
      ensures layer in old(layers) ==> forall r, k {:trigger At(r, k)} :: OnScreen(r, k) ==>
        At(r, k) == Removed(old(At(r, k)), IndexOf(old(layers), layer))
    {
      var found := Find(layer);
      hide At, Valid, Erased, Filled;
      if !found { return; }
      ghost var i := IndexOf(layers, layer);
      EraseLayer(layer, i);
      Detach(layer, i);
    }

    /** Lines 52-58. */
    method Find(layer: Layer) returns (found: bool)
      requires Valid() && Filled()
      ensures Valid() && Filled() && (found <==> layer in layers)
      ensures forall r, k {:trigger At(r, k)} :: OnScreen(r, k) ==> At(r, k) == old(At(r, k))
    {
      ghost var i: nat := 0;
      var current: Layer? := base_layer;
      while current != null
        invariant i <= |layers| && current == if i < |layers| then layers[i] else null
        invariant layer !in layers[..i]
        decreases |layers| - i
      {
        assert LinkedAt(layers, i) && layers[..i + 1] == layers[..i] + [layers[i]];
        if current == layer { return true; }
        current := current.next;
        i := i + 1;
      }
      assert layers[..i] == layers;
      found := false;
    }

    /** Lines 60-65. */
    method EraseLayer(layer: Layer, ghost i: nat)
      requires Valid() && Filled() && 0 < i < |layers| && layers[i] == layer
      modifies framebuffer_base, layer.buffer
      ensures Valid() && Filled()
      ensures forall r, k {:trigger At(r, k)} :: OnScreen(r, k) ==> At(r, k) == Erased(old(At(r, k)), i)
    {
      hide At, Erased, Valid;
      var row := 0;
      while row < BUFFER_HEIGHT
        invariant 0 <= row <= BUFFER_HEIGHT && Valid() && Filled()
        invariant forall r, k {:trigger At(r, k)} :: OnScreen(r, k) && r < row ==> At(r, k) == Erased(old(At(r, k)), i)
        invariant forall r, k {:trigger At(r, k)} :: OnScreen(r, k) && r >= row ==> At(r, k) == old(At(r, k))
      {
        EraseRow(layer, i, row);
        row := row + 1;
      }
    }

    method EraseRow(layer: Layer, ghost i: nat, row: int)
      requires Valid() && Filled() && 0 < i < |layers| && layers[i] == layer && 0 <= row < BUFFER_HEIGHT
      modifies framebuffer_base, layer.buffer
      ensures Valid() && Filled()
      ensures forall k {:trigger At(row, k)} :: 0 <= k < BUFFER_WIDTH ==> At(row, k) == Erased(old(At(row, k)), i)
      ensures forall r, k {:trigger At(r, k)} :: OnScreen(r, k) && r != row ==> At(r, k) == old(At(r, k))
    {
      hide At, Erased, Valid;
      var col := 0;
      while col < BUFFER_WIDTH
        invariant 0 <= col <= BUFFER_WIDTH && Valid() && Filled()
        invariant forall k {:trigger At(row, k)} :: 0 <= k < col ==> At(row, k) == Erased(old(At(row, k)), i)
        invariant forall r, k {:trigger At(r, k)} :: OnScreen(r, k) && (r != row || k >= col) ==>
          At(r, k) == old(At(r, k))
      {
        assert At(row, col) == old(At(row, col));
        EraseCell(layer, i, row, col);
        col := col + 1;
      }
    }

    method EraseCell(layer: Layer, ghost i: nat, row: int, col: int)
      requires Valid() && Filled() && 0 < i < |layers| && layers[i] == layer && OnScreen(row, col)
      modifies framebuffer_base, layer.buffer
      ensures Valid() && Filled() && At(row, col) == Erased(old(At(row, col)), i)
      ensures forall r, k {:trigger At(r, k)} :: OnScreen(r, k) && (r != row || k != col) ==> At(r, k) == old(At(r, k))
    {
      hide Composite, Covered;
      ghost var p := At(row, col);
      assert p.cells[i] == layer.buffer[row, col] && p.cells[0] == base_layer.buffer[row, col] != NUL;
      if layer.buffer[row, col] != NUL {
        WriteToLayer(layer, i, row, col, NUL);
        assert At(row, col) == Place(p.cells[i := NUL], p.shown || !Covered(p.cells, i));
      } else {
        assert p.cells[i := NUL] == p.cells;
      }
      assert At(row, col) == Erased(p, i);
      assert forall r, k {:trigger At(r, k)} :: OnScreen(r, k) && (r != row || k != col) ==> At(r, k) == old(At(r, k));
    }

    /** Lines 67-71. */
    method Detach(layer: Layer, ghost i: nat)
      requires Valid() && Filled() && 0 < i < |layers| && layers[i] == layer
      requires forall r, k {:trigger At(r, k)} :: OnScreen(r, k) ==> At(r, k).cells[i] == NUL
      modifies this`layers, layers
      ensures Valid() && Filled() && layers == Cut(old(layers), i)
      ensures forall r, k {:trigger At(r, k)} :: OnScreen(r, k) ==>
        At(r, k) == Place(Cut(old(At(r, k)).cells, i), old(At(r, k)).shown)
    {
      ghost var ls := layers;
      assert LinkedAt(ls, i);
      assert forall k {:trigger ls[k]} :: 0 <= k < |ls| ==>
        (ls[k] == ls[i - 1] <==> k == i - 1) && (i + 1 < |ls| ==> (ls[k] == ls[i + 1] <==> k == i + 1));
      layer.prev.next := layer.next;
      if layer.next != null {
        layer.next.prev := layer.prev;
      }
      CutLinks(ls, i);
      layers := Cut(ls, i);
      CutApart(ls, i);
      hide Linked;
      PlacesCut(i);
    }

    twostate lemma PlacesCut(new i: nat)
      requires old(Valid()) && Valid() && 0 < i < |old(layers)| && layers == Cut(old(layers), i)
      requires framebuffer_base[..] == old(framebuffer_base[..])
      requires forall l <- old(layers), r, k :: OnScreen(r, k) ==> l.buffer[r, k] == old(l.buffer[r, k])
      requires forall r, k {:trigger old(At(r, k))} :: OnScreen(r, k) ==> old(At(r, k)).cells[i] == NUL
      ensures forall r, k {:trigger At(r, k)} :: OnScreen(r, k) ==>
        At(r, k) == Place(Cut(old(At(r, k)).cells, i), old(At(r, k)).shown)
    {
      forall r, k | OnScreen(r, k)
        ensures At(r, k) == Place(Cut(old(At(r, k)).cells, i), old(At(r, k)).shown)
      {
        PlaceCut(i, r, k);
      }
    }

    twostate lemma PlaceCut(new i: nat, new r: int, new k: int)
      requires old(Valid()) && Valid() && 0 < i < |old(layers)| && layers == Cut(old(layers), i) && OnScreen(r, k)
      requires framebuffer_base[..] == old(framebuffer_base[..])
      requires forall l <- old(layers) :: l.buffer[r, k] == old(l.buffer[r, k])
      requires old(At(r, k)).cells[i] == NUL
      ensures At(r, k) == Place(Cut(old(At(r, k)).cells, i), old(At(r, k)).shown)
    {
      hide Composite, Linked;
      var cells, cells' := old(Cells(r, k)), Cells(r, k);
      assert old(At(r, k)).cells == cells && cells[i] == NUL;
      forall j | 0 <= j < |cells'|
        ensures cells'[j] == Cut(cells, i)[j]
      {
        var l := if j < i then j else j + 1;
        assert layers[j] == old(layers)[l] && cells[l] == old(layers[l].buffer[r, k]);
      }
      assert cells' == Cut(cells, i);
      CompositeCut(cells, i);
      assert framebuffer_base[..][Position(r, k)] == old(framebuffer_base[..])[Position(r, k)];
    }
  }

  function IndexOf(ls: seq<Layer>, layer: Layer): (i: nat)
    requires layer in ls
    ensures i < |ls| && ls[i] == layer
  {
    if ls[0] == layer then 0 else 1 + IndexOf(ls[1..], layer)
  }

  function Cut<T>(s: seq<T>, i: nat): seq<T>
    requires i < |s|
  {
    s[..i] + s[i + 1..]
  }

  /** The place once layer `i`, not the base, is erased there. */
  ghost function Erased(p: Place, i: nat): Place
    requires i < |p.cells|
  {
    Place(p.cells[i := NUL], p.shown || (p.cells[i] != NUL && !Covered(p.cells, i)))
  }

  /** And once the layer is gone. */
  ghost function Removed(p: Place, i: nat): Place
    requires i < |p.cells|
  {
    Place(Cut(p.cells, i), Erased(p, i).shown)
  }

  lemma CompositeCut(cells: seq<char>, i: nat)
    requires i < |cells| && cells[i] == NUL
    ensures Composite(Cut(cells, i)) == Composite(cells)
  {
    TopmostWithout(cells, i);
  }

  lemma CutApart(ls: seq<Layer>, i: nat)
    requires Apart(ls) && i < |ls|
    ensures Apart(Cut(ls, i))
  {
    var r := Cut(ls, i);
    assert forall k {:trigger r[k]} :: 0 <= k < |r| ==> r[k] == ls[if k < i then k else k + 1];
  }

  /** The list without layer `i`, once its neighbours know of each other. */
  twostate lemma CutLinks(ls: seq<Layer>, new i: nat)
    requires i < |ls| && old(Linked(ls))
    requires forall k {:trigger ls[k]} :: 0 <= k < |ls| ==>
      ls[k].next == if i > 0 && k == i - 1 then old(ls[i].next) else old(ls[k].next)
    requires forall k {:trigger ls[k]} :: 0 <= k < |ls| ==>
      ls[k].prev == if k == i + 1 then old(ls[i].prev) else old(ls[k].prev)
    ensures Linked(Cut(ls, i))
  {
    var r := Cut(ls, i);
    assert old(LinkedAt(ls, i));
    forall k | 0 <= k < |r|
      ensures LinkedAt(r, k)
    {
      var j := if k < i then k else k + 1;
      assert r[k] == ls[j] && old(LinkedAt(ls, j));
    }
  }

  lemma CompositeAppended(cells: seq<char>)
    ensures Composite(cells + [NUL]) == Composite(cells)
  {
    TopmostAppended(cells);
  }

  /** The list with a layer put on top. */
  twostate lemma AppendedLinks(ls: seq<Layer>, new layer: Layer)
    requires ls != [] && old(Linked(ls)) && layer !in ls
    requires forall k {:trigger ls[k]} :: 0 <= k < |ls| ==>
      ls[k].next == (if k == |ls| - 1 then layer else old(ls[k].next)) && ls[k].prev == old(ls[k].prev)
    requires layer.next == null && layer.prev == ls[|ls| - 1]
    ensures Linked(ls + [layer])
  {
    var r := ls + [layer];
    forall k | 0 <= k < |r|
      ensures LinkedAt(r, k)
    {
      if k < |ls| {
        assert r[k] == ls[k] && old(LinkedAt(ls, k));
      }
    }
  }
}
