/** Line editing on standard input (src/kernel/c/filesystem/dev.c): a ring of characters being typed and the
    buffer of the last finished line. */
module StdinRing {
  const STDIN_BUFFER_SIZE := 1024
  const LINE_BUFFER_SIZE := STDIN_BUFFER_SIZE
  const BACKSPACE := '\U{0008}'

  // ---------- what editing means ----------

  predicate Printable(c: char) { ' ' <= c <= '~' }

  /** One more character; the oldest is lost when the ring, which keeps one cell free, is full. */
  function Typed(text: seq<char>, c: char): seq<char> {
    if |text| + 1 == STDIN_BUFFER_SIZE then text[1..] + [c] else text + [c]
  }

  function Erased(text: seq<char>): seq<char> { if text == [] then [] else text[..|text| - 1] }

  /** The text being typed and the last line, with how much of it was read. */
  datatype Editor = Editor(text: seq<char>, line: seq<char>, read: nat)

  function Key(e: Editor, c: char): Editor {
    if c == '\n' then Editor([], e.text, 0)
    else if c == BACKSPACE then e.(text := Erased(e.text))
    else if Printable(c) then e.(text := Typed(e.text, c))
    else e
  }

  function Keys(e: Editor, cs: seq<char>): Editor
    decreases |cs|
  {
    if cs == [] then e else Keys(Key(e, cs[0]), cs[1..])
  }

  lemma {:induction false} KeysConcat(e: Editor, a: seq<char>, b: seq<char>)
    ensures Keys(e, a + b) == Keys(Keys(e, a), b)
    decreases |a|
  {
    if a == [] {
      assert a + b == b;
    } else {
      KeysConcat(Key(e, a[0]), a[1..], b);
      assert (a + b)[1..] == a[1..] + b;
    }
  }

  /** The last characters that the ring holds. */
  function Kept(t: seq<char>): seq<char> {
    if |t| < STDIN_BUFFER_SIZE then t else t[|t| + 1 - STDIN_BUFFER_SIZE..]
  }

  lemma KeptConcat(t: seq<char>, u: seq<char>)
    ensures Kept(Kept(t) + u) == Kept(t + u)
  {
    var a, b := Kept(Kept(t) + u), Kept(t + u);
    assert |a| == |b|;
    forall k | 0 <= k < |a|
      ensures a[k] == b[k]
    {
    }
  }

  /** Typing keeps the last characters that the ring holds. */
  lemma {:induction false} TypingKeepsLast(e: Editor, cs: seq<char>)
    requires (forall k :: 0 <= k < |cs| ==> Printable(cs[k])) && |e.text| < STDIN_BUFFER_SIZE
    ensures Keys(e, cs) == e.(text := Kept(e.text + cs))
    decreases |cs|
  {
    if cs == [] {
      assert e.text + cs == e.text;
    } else {
      KeyKept(e, cs[0]);
      hide Key, Kept, Printable;
      TypingKeepsLast(Key(e, cs[0]), cs[1..]);
      KeptConcat(e.text + [cs[0]], cs[1..]);
      assert e.text + [cs[0]] + cs[1..] == e.text + cs;
    }
  }

  lemma KeyKept(e: Editor, c: char)
    requires Printable(c) && |e.text| < STDIN_BUFFER_SIZE
    ensures Key(e, c) == e.(text := Kept(e.text + [c])) && |Key(e, c).text| < STDIN_BUFFER_SIZE
  {
  }

  /** As many backspaces as characters typed undo the typing, as long as the ring does not overflow: with the repair,
      and in the source when no backspace meets index 0 (UndoneAtZero). */
  lemma {:induction false} BackspaceUndoes(e: Editor, cs: seq<char>, bs: seq<char>)
    requires (forall k :: 0 <= k < |cs| ==> Printable(cs[k])) && |e.text| + |cs| < STDIN_BUFFER_SIZE
    requires |bs| == |cs| && forall k :: 0 <= k < |bs| ==> bs[k] == BACKSPACE
    ensures Keys(e, cs + bs) == e
  {
    KeysConcat(e, cs, bs);
    TypingKeepsLast(e, cs);
    EraseAll(e.(text := e.text + cs), bs);
    assert (e.text + cs)[..|e.text|] == e.text;
  }

  lemma {:induction false} EraseAll(e: Editor, bs: seq<char>)
    requires |bs| <= |e.text| && forall k :: 0 <= k < |bs| ==> bs[k] == BACKSPACE
    ensures Keys(e, bs) == e.(text := e.text[..|e.text| - |bs|])
    decreases |bs|
  {
    if bs == [] {
      assert e.text[..|e.text|] == e.text;
    } else {
      EraseAll(Key(e, bs[0]), bs[1..]);
      assert Erased(e.text)[..|e.text| - |bs|] == e.text[..|e.text| - |bs|];
    }
  }

  // ---------- reading ----------

  function Taken(e: Editor, size: int): seq<char>
    requires e.read <= |e.line|
  {
    var n := if size < 0 then 0 else if size < |e.line| - e.read then size else |e.line| - e.read;
    e.line[e.read..e.read + n]
  }

  function AfterRead(e: Editor, size: int): Editor
    requires e.read <= |e.line|
  {
    e.(read := e.read + |Taken(e, size)|)
  }

  function ReadRun(e: Editor, sizes: seq<int>): (r: (seq<char>, Editor))
    requires e.read <= |e.line|
    ensures r.1.read <= |r.1.line|
    decreases |sizes|
  {
    if sizes == [] then ([], e)
    else
      var (rest, e') := ReadRun(AfterRead(e, sizes[0]), sizes[1..]);
      (Taken(e, sizes[0]) + rest, e')
  }

  function Wanted(sizes: seq<int>): nat {
    if sizes == [] then 0 else (if sizes[0] < 0 then 0 else sizes[0]) + Wanted(sizes[1..])
  }

  lemma SliceJoin(s: seq<char>, a: nat, b: nat, c: nat)
    requires a <= b <= c <= |s|
    ensures s[a..b] + s[b..c] == s[a..c]
  {
  }

  lemma TakenIs(e: Editor, size: int, n: nat)
    requires e.read + n <= |e.line| && (n == 0 || n <= size) && (n >= size || e.read + n == |e.line|)
    ensures Taken(e, size) == e.line[e.read..e.read + n] && AfterRead(e, size) == e.(read := e.read + n)
  {
  }

  /** Reads of any sizes return consecutive pieces of the line, and all of it once they ask for enough. */
  lemma {:induction false} ReadsConcat(e: Editor, sizes: seq<int>)
    requires e.read <= |e.line|
    ensures var (s, e') := ReadRun(e, sizes);
      e' == e.(read := e.read + |s|) && s == e.line[e.read..e.read + |s|]
      && (Wanted(sizes) >= |e.line| - e.read ==> s == e.line[e.read..])
    decreases |sizes|
  {
    if sizes != [] {
      var e1 := AfterRead(e, sizes[0]);
      ReadsConcat(e1, sizes[1..]);
      var (s, e') := ReadRun(e1, sizes[1..]);
      SliceJoin(e.line, e.read, e1.read, e1.read + |s|);
    }
  }

  // ---------- the buffers ----------

  /** The characters of a ring from `current` up to `last`. */
  function Between(buf: seq<char>, current: nat, last: nat): seq<char>
    requires current <= |buf| && last <= |buf|
  {
    if current <= last then buf[current..last] else buf[current..] + buf[..last]
  }

  function Next(i: nat): nat { (i + 1) % STDIN_BUFFER_SIZE }

  lemma NextIs(i: nat)
    requires i < STDIN_BUFFER_SIZE
    ensures Next(i) == if i == STDIN_BUFFER_SIZE - 1 then 0 else i + 1
  {
  }

  /** The two indices after one more character. */
  function Moved(current: nat, last: nat): (nat, nat) {
    (if current == Next(last) then Next(current) else current, Next(last))
  }

  function MovedBy(n: nat): (nat, nat) {
    if n == 0 then (0, 0) else Moved(MovedBy(n - 1).0, MovedBy(n - 1).1)
  }

  /** The two indices of the ring. */
  datatype Ring = Ring(current: nat, last: nat)

  /** The indices after a key, with the backspace wrapped. */
  function Pressed(r: Ring, c: char): Ring {
    if c == '\n' then Ring(r.last, r.last)
    else if c == BACKSPACE then
      if r.current == r.last then r else r.(last := if r.last == 0 then STDIN_BUFFER_SIZE - 1 else r.last - 1)
    else if Printable(c) then Ring(Moved(r.current, r.last).0, Moved(r.current, r.last).1)
    else r
  }

  /** No backspace meets the last index at 0 with text left. */
  predicate NeverAtZero(r: Ring, cs: seq<char>)
    decreases |cs|
  {
    cs == []
    || ((cs[0] == BACKSPACE ==> r.last > 0 || r.current == r.last) && NeverAtZero(Pressed(r, cs[0]), cs[1..]))
  }

  function PressedAll(r: Ring, cs: seq<char>): Ring
    decreases |cs|
  {
    if cs == [] then r else PressedAll(Pressed(r, cs[0]), cs[1..])
  }

  /** How much text there is. */
  function Length(r: Ring): nat
    requires r.current < STDIN_BUFFER_SIZE
  {
    if r.current <= r.last then r.last - r.current else STDIN_BUFFER_SIZE - r.current + r.last
  }

  /** Typing and erasing as much works without the repair exactly when the typing does not reach the top cell. */
  lemma UndoneAtZero(r: Ring, cs: seq<char>, bs: seq<char>)
    requires r.current < STDIN_BUFFER_SIZE && r.last < STDIN_BUFFER_SIZE && Length(r) + |cs| < STDIN_BUFFER_SIZE
    requires (forall k :: 0 <= k < |cs| ==> Printable(cs[k])) && |bs| == |cs|
    requires forall k :: 0 <= k < |bs| ==> bs[k] == BACKSPACE
    ensures NeverAtZero(r, cs + bs) <==> r.last + |cs| < STDIN_BUFFER_SIZE
  {
    TypedIndexes(r, cs, bs);
    ErasedIndexes(Ring(r.current, Turned(r.last, |cs|)), bs);
  }

  lemma TypedIndex(r: Ring, c: char, n: nat)
    requires r.current < STDIN_BUFFER_SIZE && r.last < STDIN_BUFFER_SIZE && Length(r) + 1 < STDIN_BUFFER_SIZE
    requires Printable(c)
    ensures Pressed(r, c) == Ring(r.current, Next(r.last)) && Next(r.last) < STDIN_BUFFER_SIZE && c != BACKSPACE
    ensures Length(Ring(r.current, Next(r.last))) == Length(r) + 1
    ensures Turned(Next(r.last), n) == Turned(r.last, n + 1) && Turned(r.last, 0) == r.last
  {
  }

  /** Index `i` moved on by `n`. */
  function Turned(i: nat, n: nat): nat { (i + n) % STDIN_BUFFER_SIZE }

  lemma {:induction false} TypedIndexes(r: Ring, cs: seq<char>, bs: seq<char>)
    requires r.current < STDIN_BUFFER_SIZE && r.last < STDIN_BUFFER_SIZE && Length(r) + |cs| < STDIN_BUFFER_SIZE
    requires forall k :: 0 <= k < |cs| ==> Printable(cs[k])
    ensures var r' := Ring(r.current, Turned(r.last, |cs|));
      Length(r') == Length(r) + |cs| && (NeverAtZero(r, cs + bs) <==> NeverAtZero(r', bs))
    decreases |cs|
  {
    if cs == [] {
      assert cs + bs == bs;
      assert Turned(r.last, 0) == r.last;
      hide Turned, Length;
    } else {
      hide Pressed, Next, Length, Turned;
      assert (cs + bs)[0] == cs[0] && (cs + bs)[1..] == cs[1..] + bs && Printable(cs[0]);
      TypedIndex(r, cs[0], |cs| - 1);
      TypedIndexes(Pressed(r, cs[0]), cs[1..], bs);
    }
  }

  lemma {:induction false} ErasedIndexes(r: Ring, bs: seq<char>)
    requires r.current < STDIN_BUFFER_SIZE && r.last < STDIN_BUFFER_SIZE && |bs| <= Length(r)
    requires forall k :: 0 <= k < |bs| ==> bs[k] == BACKSPACE
    ensures NeverAtZero(r, bs) <==> |bs| <= r.last
    decreases |bs|
  {
    if bs != [] && r.last > 0 {
      ErasedIndexes(Pressed(r, bs[0]), bs[1..]);
    }
  }

  /** Where the unrepaired backspace fails: 1024 characters into an empty buffer bring the last index back to 0. */
  lemma LastBackAtZero()
    ensures MovedBy(STDIN_BUFFER_SIZE) == (1, 0)
  {
    MovedUp(STDIN_BUFFER_SIZE - 1);
  }

  lemma {:induction false} MovedUp(n: nat)
    requires n < STDIN_BUFFER_SIZE
    ensures MovedBy(n) == (0, n)
  {
    if n > 0 { MovedUp(n - 1); }
  }

  lemma BetweenFront(buf: seq<char>, current: nat, last: nat)
    requires |buf| == STDIN_BUFFER_SIZE && current < |buf| && last < |buf| && current != last
    ensures Between(buf, current, last) == [buf[current]] + Between(buf, Next(current), last)
  {
    NextIs(current);
    hide Next;
    var a, b := Between(buf, current, last), [buf[current]] + Between(buf, Next(current), last);
    assert |a| == |b|;
    forall k | 0 <= k < |a|
      ensures a[k] == b[k]
    {
    }
  }

  lemma BetweenPut(buf: seq<char>, current: nat, last: nat, c: char, buf': seq<char>)
    requires |buf| == STDIN_BUFFER_SIZE && current < |buf| && last < |buf| && buf' == buf[last := c]
    ensures Next(last) != current ==> Between(buf', current, Next(last)) == Between(buf, current, last) + [c]
    ensures Next(last) == current ==> |Between(buf, current, last)| == STDIN_BUFFER_SIZE - 1
    ensures Next(last) == current ==> Between(buf', Next(current), Next(last)) == Between(buf, current, last)[1..] + [c]
  {
    if Next(last) == current {
      PutFull(buf, current, last, c, buf');
    } else {
      PutFree(buf, current, last, c, buf');
    }
  }

  lemma PutFree(buf: seq<char>, current: nat, last: nat, c: char, buf': seq<char>)
    requires |buf| == STDIN_BUFFER_SIZE && current < |buf| && last < |buf| && buf' == buf[last := c]
    requires Next(last) != current
    ensures Between(buf', current, Next(last)) == Between(buf, current, last) + [c]
  {
    NextIs(last);
    hide Next;
    var a, b := Between(buf', current, Next(last)), Between(buf, current, last) + [c];
    assert |a| == |b|;
    forall k | 0 <= k < |a|
      ensures a[k] == b[k]
    {
    }
  }

  lemma PutFull(buf: seq<char>, current: nat, last: nat, c: char, buf': seq<char>)
    requires |buf| == STDIN_BUFFER_SIZE && current < |buf| && last < |buf| && buf' == buf[last := c]
    requires Next(last) == current
    ensures Between(buf', Next(current), Next(last)) == Between(buf, current, last)[1..] + [c]
  {
    NextIs(last);
    NextIs(current);
    hide Next;
    var a, b := Between(buf', Next(current), Next(last)), Between(buf, current, last)[1..] + [c];
    assert |a| == |b|;
    forall k | 0 <= k < |a|
      ensures a[k] == b[k]
    {
    }
  }

  class Stdin {
    const stdin_buffer: array<char>
    var stdin_buffer_current: nat
    var stdin_buffer_last: int
    const line_buffer: array<char>
    var line_buffer_current: nat
    var line_buffer_size: nat

    ghost predicate Valid()
      reads this
    {
      && stdin_buffer.Length == STDIN_BUFFER_SIZE && line_buffer.Length == LINE_BUFFER_SIZE
         && stdin_buffer != line_buffer
      && stdin_buffer_current < STDIN_BUFFER_SIZE && 0 <= stdin_buffer_last < STDIN_BUFFER_SIZE
      && line_buffer_current <= line_buffer_size <= LINE_BUFFER_SIZE
    }

    ghost function View(): (e: Editor)
      requires Valid()
      reads this, stdin_buffer, line_buffer
      ensures |e.text| < STDIN_BUFFER_SIZE && e.read <= |e.line|
    {
      Editor(Between(stdin_buffer[..], stdin_buffer_current, stdin_buffer_last), line_buffer[..line_buffer_size],
        line_buffer_current)
    }

    ghost function Indexes(): Ring
      requires Valid()
      reads this
    {
      Ring(stdin_buffer_current, stdin_buffer_last)
    }

    constructor ()
      ensures Valid() && View() == Editor([], [], 0) && Indexes() == Ring(0, 0)
    {
      stdin_buffer := new char[STDIN_BUFFER_SIZE](_ => '\0');
      line_buffer := new char[LINE_BUFFER_SIZE](_ => '\0');
      stdin_buffer_current, stdin_buffer_last, line_buffer_current, line_buffer_size := 0, 0, 0, 0;
    }

    /** One key. The source is the case `wrap == false`: a backspace then leaves the ring exactly when the last
        character does not sit in cell 0's predecessor, the top cell. */
    method FillStdinBuffer(c: char, wrap: bool)
      requires Valid()
      modifies this, stdin_buffer, line_buffer
      ensures Valid() <==> wrap || c != BACKSPACE || old(stdin_buffer_last) > 0 || old(View().text) == []
      ensures Valid() ==> View() == Key(old(View()), c) && Indexes() == Pressed(old(Indexes()), c)
      ensures !Valid() ==> stdin_buffer_last == -1
      ensures Valid() ==>
        var e, n := old(View()), |old(View()).text|;
        View() == if c as int == 10 then Editor([], e.text, 0)
                  else if c as int == 8 then Editor(if n > 0 then e.text[..n - 1] else [], e.line, e.read)
                  else if c as int < 32 || c as int > 126 then e
                  else Editor((if n < 1023 then e.text else e.text[1..]) + [c], e.line, e.read)
    {
      if c == '\n' {
        TakeLine();
      } else if c == BACKSPACE {
        if stdin_buffer_last != stdin_buffer_current {
          stdin_buffer_last := stdin_buffer_last - 1;
          if wrap && stdin_buffer_last < 0 {
            stdin_buffer_last := stdin_buffer_last + STDIN_BUFFER_SIZE;
          }
        }
      } else if ' ' <= c <= '~' {
        PutChar(c);
      }
    }

    /** Any keys, up to the one that breaks the ring: with the repair none does, and in the source none exactly when no
        backspace meets the last index at 0 with text left. */
    method FillAll(cs: seq<char>, wrap: bool) returns (done: nat)
      requires Valid()
      modifies this, stdin_buffer, line_buffer
      ensures done <= |cs| && (Valid() <==> wrap || NeverAtZero(old(Indexes()), cs))
      ensures Valid() ==> done == |cs| && View() == Keys(old(View()), cs) && Indexes() == PressedAll(old(Indexes()), cs)
      ensures !Valid() ==> done > 0 && cs[done - 1] == BACKSPACE && stdin_buffer_last == -1
    {
      hide Key, Pressed, Between;
      done := 0;
      while done < |cs|
        invariant done <= |cs| && Valid() && Keys(View(), cs[done..]) == Keys(old(View()), cs)
        invariant PressedAll(Indexes(), cs[done..]) == PressedAll(old(Indexes()), cs)
        invariant wrap || (NeverAtZero(Indexes(), cs[done..]) <==> NeverAtZero(old(Indexes()), cs))
      {
        assert cs[done..][0] == cs[done] && cs[done..][1..] == cs[done + 1..];
        EmptyIs();
        FillStdinBuffer(cs[done], wrap);
        done := done + 1;
        if stdin_buffer_last < 0 { return; }
      }
    }

    lemma EmptyIs()
      requires Valid()
      ensures View().text == [] <==> stdin_buffer_current == stdin_buffer_last
    {
    }

    /** Lines 56-68: the finished line moves to the line buffer. */
    method TakeLine()
      requires Valid()
      modifies this, line_buffer
      ensures Valid() && View() == Key(old(View()), '\n') && Indexes() == Pressed(old(Indexes()), '\n')
    {
      ghost var text := View().text;
      hide Between;
      var index := 0;
      while true
        invariant Valid() && stdin_buffer_last == old(stdin_buffer_last)
        invariant 0 <= index <= |text| && line_buffer[..index] == text[..index]
        invariant View().text == text[index..]
        decreases |text| - index
      {
        if stdin_buffer_current == stdin_buffer_last { break; }
        if index == LINE_BUFFER_SIZE { break; }
        TakeChar(index, text);
        index := index + 1;
      }
      NothingLeft();
      line_buffer_current := 0;
      line_buffer_size := index;
    }

    lemma NothingLeft()
      requires Valid()
      ensures stdin_buffer_current == stdin_buffer_last ==> View().text == []
      ensures |View().text| < STDIN_BUFFER_SIZE
    {
    }

    method TakeChar(index: nat, ghost text: seq<char>)
      requires Valid() && stdin_buffer_current != stdin_buffer_last
      requires index <= |text| < STDIN_BUFFER_SIZE && line_buffer[..index] == text[..index]
      requires View().text == text[index..]
      modifies this`stdin_buffer_current, line_buffer
      ensures Valid() && index < |text| && line_buffer[..index + 1] == text[..index + 1]
      ensures View().text == text[index + 1..]
    {
      BetweenFront(stdin_buffer[..], stdin_buffer_current, stdin_buffer_last);
      hide Between;
      assert text[index] == text[index..][0] && text[index..][1..] == text[index + 1..];
      line_buffer[index] := stdin_buffer[stdin_buffer_current];
      stdin_buffer_current := (stdin_buffer_current + 1) % STDIN_BUFFER_SIZE;
    }

    /** Lines 80-84. */
    method PutChar(c: char)
      requires Valid()
      modifies this`stdin_buffer_current, this`stdin_buffer_last, stdin_buffer
      ensures Valid() && View() == old(View()).(text := Typed(old(View().text), c))
      ensures (stdin_buffer_current, stdin_buffer_last) == Moved(old(stdin_buffer_current), old(stdin_buffer_last))
    {
      hide Between;
      BetweenPut(stdin_buffer[..], stdin_buffer_current, stdin_buffer_last, c,
        stdin_buffer[..][stdin_buffer_last := c]);
      stdin_buffer[stdin_buffer_last] := c;
      stdin_buffer_last := (stdin_buffer_last + 1) % STDIN_BUFFER_SIZE;
      if stdin_buffer_current == stdin_buffer_last {
        stdin_buffer_current := (stdin_buffer_current + 1) % STDIN_BUFFER_SIZE;
      }
    }

    method CopyChar(buffer: array<char>, read_count: nat, ghost line: seq<char>, ghost from: nat, ghost buf: seq<char>)
      requires Valid() && line == line_buffer[..line_buffer_size]
      requires line_buffer_current == from + read_count < line_buffer_size
      requires read_count < buffer.Length == |buf| && buffer != line_buffer && buffer != stdin_buffer
      requires buffer[..] == line[from..line_buffer_current] + buf[read_count..]
      modifies buffer
      ensures buffer[..] == line[from..line_buffer_current + 1] + buf[read_count + 1..]
    {
      buffer[read_count] := line_buffer[line_buffer_current];
      assert line[from..line_buffer_current + 1] == line[from..line_buffer_current] + [line[line_buffer_current]];
    }

    /** `foreground` says whether the reader is the foreground process. Without a line to read it is halted until
        line_buffer_predicate holds. */
    method StdinRead(foreground: bool, buffer: array<char>, size: int) returns (read_count: nat, halted: bool)
      requires Valid() && size <= buffer.Length && buffer != stdin_buffer && buffer != line_buffer
      modifies this`line_buffer_current, buffer
      ensures Valid() && halted == !(foreground && old(View()).read < |old(View()).line|)
      ensures halted ==> read_count == 0 && View() == old(View()) && buffer[..] == old(buffer[..])
      ensures !halted ==>
        var left := old(line_buffer_size) - old(line_buffer_current);
        read_count == (if size < 0 then 0 else if size < left then size else left)
        && line_buffer_current == old(line_buffer_current) + read_count
      ensures !halted ==> View() == AfterRead(old(View()), size) && read_count == |Taken(old(View()), size)|
      ensures !halted ==> buffer[..] == Taken(old(View()), size) + old(buffer[..])[read_count..]
    {
      hide Between, Taken, AfterRead;
      read_count, halted := 0, false;
      if !(foreground && line_buffer_current < line_buffer_size) { return 0, true; }
      ghost var line, from := line_buffer[..line_buffer_size], line_buffer_current;
      while true
        invariant Valid() && line == line_buffer[..line_buffer_size]
        invariant unchanged(this`stdin_buffer_current, this`stdin_buffer_last, this`line_buffer_size)
        invariant line_buffer_current == from + read_count && (read_count <= size || read_count == 0)
        invariant read_count <= buffer.Length
        invariant buffer[..] == line[from..line_buffer_current] + old(buffer[..])[read_count..]
        decreases line_buffer_size - line_buffer_current
      {
        if line_buffer_current == line_buffer_size { break; }
        if read_count >= size { break; }
        CopyChar(buffer, read_count, line, from, old(buffer[..]));
        read_count := read_count + 1;
        line_buffer_current := line_buffer_current + 1;
      }
      TakenIs(old(View()), size, read_count);
    }
  }

  lemma {:induction false} NoBackspace(r: Ring, cs: seq<char>)
    requires BACKSPACE !in cs
    ensures NeverAtZero(r, cs)
    decreases |cs|
  {
    if cs != [] {
      assert cs[0] in cs && forall c <- cs[1..] :: c in cs;
      NoBackspace(Pressed(r, cs[0]), cs[1..]);
    }
  }

  /** A line typed into an empty ring is read back: all of it, or its last 1023 characters. */
  method TypeAndRead(s: Stdin, cs: seq<char>, buffer: array<char>) returns (read_count: nat, halted: bool)
    requires s.Valid() && s.stdin_buffer_current == s.stdin_buffer_last
    requires forall k :: 0 <= k < |cs| ==> 32 <= cs[k] as int <= 126
    requires buffer != s.stdin_buffer && buffer != s.line_buffer
    modifies s, s.stdin_buffer, s.line_buffer, buffer
    ensures s.Valid() && s.stdin_buffer_current == s.stdin_buffer_last && (halted <==> cs == [])
    ensures !halted ==>
      var line := if |cs| <= 1023 then cs else cs[|cs| - 1023..];
      read_count == (if buffer.Length < |line| then buffer.Length else |line|)
      && buffer[..read_count] == line[..read_count] && buffer[read_count..] == old(buffer[..])[read_count..]
  {
    s.EmptyIs();
    var keys := cs + ['\n'];
    ghost var e := s.View();
    TypingKeepsLast(e, cs);
    KeysConcat(e, cs, ['\n']);
    NoBackspace(s.Indexes(), keys);
    assert e.text + cs == cs;
    assert Keys(Keys(e, cs), ['\n']) == Key(Keys(e, cs), '\n');
    var done := s.FillAll(keys, false);
    s.EmptyIs();
    read_count, halted := s.StdinRead(true, buffer, buffer.Length);
  }
}
