/** A client of the screen: any sequence of drawings leaves it the composite of its layers. */
module FramebufferClient {
  import opened Framebuffer

  datatype Drawing =
    | Create(room: bool)
    | Remove(layer: Layer)
    | Write(layer: Layer, row: int, col: int, c: char)
    | Scroll
    | Blank
    | Move(row: int, col: int)
    | Type(c: char)

  method AddLayer(s: Screen, room: bool)
    requires s.Valid() && s.Filled()
    modifies s, s.layers
    ensures s.Valid() && s.Filled() && (old(s.AllShown()) ==> s.AllShown())
    ensures forall k {:trigger s.layers[k]} :: 0 <= k < |s.layers| ==>
      (fresh(s.layers[k]) && fresh(s.layers[k].buffer)) || s.layers[k] in old(s.layers)
  {
    var layer := s.CreateLayer(room);
  }

  method DropLayer(s: Screen, layer: Layer)
    requires s.Valid() && s.Filled() && layer in s.layers && layer != s.base_layer
    modifies s, s.layers, layer.buffer, s.framebuffer_base
    ensures s.Valid() && s.Filled() && (old(s.AllShown()) ==> s.AllShown())
    ensures |s.layers| < |old(s.layers)| && forall k {:trigger s.layers[k]} :: 0 <= k < |s.layers| ==>
      s.layers[k] in old(s.layers)
  {
    s.RemoveLayer(layer);
  }

  method WriteCell(s: Screen, layer: Layer, row: int, col: int, c: char)
    requires s.Valid() && s.Filled() && layer in s.layers && OnScreen(row, col)
    requires c == NUL ==> layer != s.base_layer
    modifies layer.buffer, s.framebuffer_base
    ensures s.Valid() && s.Filled() && (old(s.AllShown()) ==> s.AllShown())
  {
    assert s.At(row, col).cells[0] == s.base_layer.buffer[row, col];
    s.WriteToLayer(layer, IndexOf(s.layers, layer), row, col, c);
  }

  /** On the base layer: scrolling and clearing keep the composite, moving the cursor too, and typing when there is no
      layer above. */
  method DrawBase(s: Screen, op: Drawing)
    requires s.Valid() && s.Filled() && (op.Scroll? || op.Blank? || op.Move? || op.Type?)
    modifies s`row, s`col, s.base_layer.buffer, s.framebuffer_base
    ensures s.Valid() && s.Filled()
    ensures old(s.AllShown()) && (op.Type? ==> |s.layers| == 1) ==> s.AllShown()
  {
    match op
    case Scroll => s.ScrollUp();
    case Blank => s.Clear();
    case Move(row, col) => s.SetCursor(row, col);
    case Type(c) => if c != NUL { s.Put(c); }
  }

  /** What the source has no answer for is not asked: drawing on a layer that is not in the list or beside the screen,
      removing the base layer or erasing on it, typing a zero character. */
  method Draw(s: Screen, op: Drawing)
    requires s.Valid() && s.Filled()
    modifies s, s.layers, Buffers(s.layers), s.framebuffer_base
    ensures s.Valid() && s.Filled()
    ensures forall k {:trigger s.layers[k]} :: 0 <= k < |s.layers| ==>
      (fresh(s.layers[k]) && fresh(s.layers[k].buffer)) || s.layers[k] in old(s.layers)
    ensures |s.layers| > |old(s.layers)| ==> op.Create?
    ensures old(s.AllShown()) && (op.Type? ==> |old(s.layers)| == 1) ==> s.AllShown()
  {
    assert s.base_layer in s.layers;
    match op
    case Create(room) => AddLayer(s, room);
    case Remove(layer) =>
      var found := Listed(s, layer);
      if found && layer != s.base_layer { DropLayer(s, layer); }
    case Write(layer, row, col, c) =>
      var found := Listed(s, layer);
      if found && OnScreen(row, col) && (c != NUL || layer != s.base_layer) { WriteCell(s, layer, row, col, c); }
    case Scroll => DrawBase(s, op);
    case Blank => DrawBase(s, op);
    case Move(row, col) => DrawBase(s, op);
    case Type(c) => DrawBase(s, op);
  }

  method Listed(s: Screen, layer: Layer) returns (found: bool)
    requires s.Valid() && s.Filled()
    ensures s.Valid() && s.Filled() && (found <==> layer in s.layers) && (old(s.AllShown()) ==> s.AllShown())
  {
    found := s.Find(layer);
  }

  /** Nothing but typing can break the composite, and typing only over a layer: after any drawings without typing, or
      with no layer but the base one, a screen that was the composite of its layers still is. */
  method DrawAll(s: Screen, ops: seq<Drawing>)
    requires s.Valid() && s.Filled()
    modifies s, s.layers, Buffers(s.layers), s.framebuffer_base
    ensures s.Valid() && s.Filled()
    ensures old(s.AllShown()) && (forall op <- ops :: !op.Type?) ==> s.AllShown()
    ensures old(s.AllShown()) && |old(s.layers)| == 1 && (forall op <- ops :: !op.Create?) ==> s.AllShown()
  {
    ghost var typed, created := exists op <- ops :: op.Type?, exists op <- ops :: op.Create?;
    var i := 0;
    while i < |ops|
      invariant i <= |ops| && s.Valid() && s.Filled()
      invariant forall k {:trigger s.layers[k]} :: 0 <= k < |s.layers| ==>
        (fresh(s.layers[k]) && fresh(s.layers[k].buffer)) || s.layers[k] in old(s.layers)
      invariant old(s.AllShown()) && !typed ==> s.AllShown()
      invariant |old(s.layers)| == 1 && !created ==> |s.layers| == 1
      invariant old(s.AllShown()) && |old(s.layers)| == 1 && !created ==> s.AllShown()
    {
      assert ops[i] in ops;
      Draw(s, ops[i]);
      i := i + 1;
    }
  }
}
