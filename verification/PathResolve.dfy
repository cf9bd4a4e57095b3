/** Path normalisation in place (src/shared/code/path.c, resolve_path) with strcpy and strcmp of
    src/shared/code/string.c. */
module PathResolve {
  import opened FatLayout
  import opened CStrings

  // ---------- what a path resolves to ----------

  type Name = seq<char>

  /** One component on the stack of those before it. */
  function Push(stack: seq<Name>, t: Name): seq<Name> {
    if t == "." then stack
    else if t == ".." then if stack == [] then [] else stack[..|stack| - 1]
    else stack + [t]
  }

  function Fold(stack: seq<Name>, ts: seq<Name>): seq<Name>
    decreases |ts|
  {
    if ts == [] then stack else Fold(Push(stack, ts[0]), ts[1..])
  }

  /** The resolved components, each behind a slash; the root alone is one slash. */
  function Rendered(stack: seq<Name>): seq<char> { if stack == [] then "/" else Join(stack, '/') }

  function Resolved(s: seq<char>): seq<char> { Rendered(Fold([], Tokens(s, '/'))) }

  /** Components of a resolved path: no empty one, no "." and no "..". */
  predicate Clean(ts: seq<Name>) {
    forall k {:trigger ts[k]} :: 0 <= k < |ts| ==> ts[k] != [] && '/' !in ts[k] && ts[k] != "." && ts[k] != ".."
  }

  predicate Pieces(ts: seq<Name>) {
    forall k {:trigger ts[k]} :: 0 <= k < |ts| ==> ts[k] != [] && '/' !in ts[k]
  }

  lemma {:induction false} FoldClean(stack: seq<Name>, ts: seq<Name>)
    requires Clean(stack) && Pieces(ts)
    ensures Clean(Fold(stack, ts))
    decreases |ts|
  {
    if ts != [] { FoldClean(Push(stack, ts[0]), ts[1..]); }
  }

  lemma {:induction false} FoldOfClean(stack: seq<Name>, ts: seq<Name>)
    requires Clean(ts)
    ensures Fold(stack, ts) == stack + ts
    decreases |ts|
  {
    if ts != [] {
      FoldOfClean(Push(stack, ts[0]), ts[1..]);
      assert stack + [ts[0]] + ts[1..] == stack + ts;
    }
  }

  lemma {:induction false} FoldSnoc(stack: seq<Name>, ts: seq<Name>, t: Name)
    ensures Fold(stack, ts + [t]) == Push(Fold(stack, ts), t)
    decreases |ts|
  {
    hide Push;
    if ts == [] {
      assert ts + [t] == [t] && [t][1..] == [];
    } else {
      FoldSnoc(Push(stack, ts[0]), ts[1..], t);
      assert (ts + [t])[1..] == ts[1..] + [t];
    }
  }

  lemma TokensPieces(s: seq<char>)
    ensures Pieces(Tokens(s, '/'))
  {
    TokensPlain(s, '/');
  }

  /** A resolved path is absolute, its components are clean, and they are the ones the stack was left with. */
  lemma ResolvedClean(s: seq<char>)
    ensures Resolved(s) != [] && Resolved(s)[0] == '/'
    ensures Clean(Tokens(Resolved(s), '/')) && Tokens(Resolved(s), '/') == Fold([], Tokens(s, '/'))
  {
    var ts := Tokens(s, '/');
    var st := Fold([], ts);
    TokensPieces(s);
    FoldClean([], ts);
    if st == [] {
      TokensDrop("/", '/');
      TokensEmpty('/');
      assert "/"[1..] == [];
    } else {
      TokensJoin(st, '/');
    }
  }

  /** Resolving twice is resolving once. */
  lemma ResolvedIdempotent(s: seq<char>)
    ensures Resolved(Resolved(s)) == Resolved(s)
  {
    ResolvedClean(s);
    FoldOfClean([], Fold([], Tokens(s, '/')));
    assert [] + Fold([], Tokens(s, '/')) == Fold([], Tokens(s, '/'));
  }

  // ---------- what the next component does to a path ----------

  /** A name is put behind the resolved path. */
  lemma ResolvedName(s: seq<char>, t: Name)
    requires t != [] && '/' !in t && t != "." && t != ".."
    ensures Resolved(s + "/" + t) == (if Resolved(s) == "/" then [] else Resolved(s)) + "/" + t
  {
    var ts := Tokens(s, '/');
    TokensSnoc(s, t, '/');
    FoldSnoc([], ts, t);
    TokensPieces(s);
    FoldClean([], ts);
    RenderedSnoc(Fold([], ts), t);
  }

  /** Two dots take the last name off, and leave the root alone. */
  lemma ResolvedUp(s: seq<char>) returns (t: Name)
    ensures Resolved(s) == "/" ==> Resolved(s + "/..") == "/"
    ensures Resolved(s) != "/" ==>
      t != [] && '/' !in t && t != "." && t != ".."
      && Resolved(s) == (if Resolved(s + "/..") == "/" then [] else Resolved(s + "/..")) + "/" + t
  {
    var st := StackUp(s);
    t := [];
    hide Tokens, Fold, Rendered, Push;
    RenderedRoot(st);
    if st != [] {
      var n := |st| - 1;
      t := st[n];
      assert st == st[..n] + [t];
      RenderedSnoc(st[..n], t);
    } else {
      assert Resolved(s) == Resolved(s + "/..");
    }
  }

  lemma StackUp(s: seq<char>) returns (st: seq<Name>)
    ensures Clean(st) && Resolved(s) == Rendered(st)
    ensures Resolved(s + "/..") == Rendered(if st == [] then [] else st[..|st| - 1])
  {
    var ts := Tokens(s, '/');
    st := Fold([], ts);
    assert s + "/.." == s + ['/'] + "..";
    hide Tokens, Fold, Rendered;
    TokensSnoc(s, "..", '/');
    FoldSnoc([], ts, "..");
    TokensPieces(s);
    FoldClean([], ts);
  }

  /** One dot, or nothing behind a slash, leaves the path as it is; the root resolves to itself. */
  lemma ResolvedStays(s: seq<char>)
    ensures Resolved(s + "/.") == Resolved(s) == Resolved(s + "/") && Resolved([]) == Resolved("/") == "/"
  {
    TokensSnoc(s, ".", '/');
    assert s + "/." == s + ['/'] + ".";
    FoldSnoc([], Tokens(s, '/'), ".");
    TokensEnd(s, '/');
    TokensEnd([], '/');
    assert [] + ['/'] == "/";
  }

  lemma RenderedSnoc(st: seq<Name>, t: Name)
    requires Clean(st)
    ensures Rendered(st + [t]) == (if Rendered(st) == "/" then [] else Rendered(st)) + "/" + t
  {
    JoinConcat(st, [t]);
    JoinOne(t);
    RenderedRoot(st);
  }

  lemma RenderedRoot(st: seq<Name>)
    requires Clean(st)
    ensures Rendered(st) == "/" <==> st == []
  {
    if st != [] { assert |Rendered(st)| >= 1 + |st[0]|; }
  }

  // ---------- room in the buffers ----------

  lemma {:induction false} JoinConcat(a: seq<Name>, b: seq<Name>)
    ensures Join(a + b, '/') == Join(a, '/') + Join(b, '/')
    decreases |a|
  {
    if a == [] {
      assert a + b == b;
    } else {
      JoinConcat(a[1..], b);
      assert (a + b)[1..] == a[1..] + b;
    }
  }

  lemma JoinOne(t: Name)
    ensures Join([t], '/') == ['/'] + t
  {
    assert Join([t][1..], '/') == [];
  }

  function Slashes(s: seq<char>): nat {
    if s == [] then 0 else (if s[0] == '/' then 1 else 0) + Slashes(s[1..])
  }

  lemma {:induction false} SlashesConcat(a: seq<char>, b: seq<char>)
    ensures Slashes(a + b) == Slashes(a) + Slashes(b)
  {
    if a == [] {
      assert a + b == b;
    } else {
      SlashesConcat(a[1..], b);
      assert (a + b)[1..] == a[1..] + b;
    }
  }

  /** Every token of an absolute path has a slash of its own in front: there are no more tokens than slashes, and
      joined they are no longer than the path. */
  lemma {:induction false} TokensFit(s: seq<char>)
    ensures |Join(Tokens(s, '/'), '/')| <= |s| + if s == [] || s[0] == '/' then 0 else 1
    ensures |Tokens(s, '/')| <= Slashes(s) + if s == [] || s[0] == '/' then 0 else 1
    decreases |s|
  {
    if s == [] {
    } else if s[0] == '/' {
      TokensFit(s[1..]);
    } else {
      var n := Span(s, '/');
      TokensFit(s[n..]);
      assert s == s[..n] + s[n..];
      SlashesConcat(s[..n], s[n..]);
      var rest := Tokens(s[n..], '/');
      assert ([s[..n]] + rest)[1..] == rest;
    }
  }

  // ---------- C strings in a buffer ----------

  /** The C string `t` begins at `start`. */
  predicate Has(buf: seq<char>, start: nat, t: seq<char>) {
    start + |t| < |buf| && buf[start..start + |t|] == t && buf[start + |t|] == NUL && NUL !in t
  }

  lemma HasCStr(buf: seq<char>, start: nat)
    requires start <= |buf| && NUL in buf[start..]
    ensures Has(buf, start, CStr(buf[start..]))
  {
    var end := EndOf(buf, start);
  }

  lemma CStrHas(buf: seq<char>, start: nat, t: seq<char>)
    requires Has(buf, start, t)
    ensures CStr(buf[start..]) == t
  {
    assert buf[start..][..|t|] == t;
    CStrIs(buf[start..], t);
  }

  lemma HasAt(buf: seq<char>, s: seq<char>)
    requires Has(buf, 0, s)
    ensures forall k {:trigger buf[k]} :: 0 <= k < |s| ==> buf[k] == s[k] && buf[k] != NUL
  {
    assert forall k {:trigger buf[k]} :: 0 <= k < |s| ==> buf[0..|s|][k] == buf[k] && s[k] != NUL;
  }

  /** `strcmp` with a constant, for equality. */
  method StrCmp(str1: array<char>, start: nat, str2: seq<char>, ghost s: seq<char>, ghost t: seq<char>) returns (r: int)
    requires Has(str1[..], start, s) && Has(str2, 0, t)
    ensures -1 <= r <= 1 && (r == 0 <==> s == t)
  {
    var i := 0;
    while true
      invariant i <= |s| && i <= |t| && s[..i] == t[..i]
      decreases |s| - i
    {
      var c1, c2 := str1[start + i], str2[i];
      assert c1 == if i < |s| then s[i] else NUL;
      assert c2 == if i < |t| then t[i] else NUL;
      if c1 < c2 { return -1; }
      if c1 > c2 { return 1; }
      if c1 == NUL && c2 == NUL {
        assert s[..i] == s && t[..i] == t;
        return 0;
      }
      i := i + 1;
    }
  }

  /** `strcpy` of a whole string. */
  method StrCpyAll(dst: array<char>, src: array<char>, size: nat, ghost s: seq<char>)
    requires Has(src[..], 0, s) && size == |s| + 1 <= dst.Length && dst != src
    modifies dst
    ensures Has(dst[..], 0, s)
  {
    HasAt(src[..], s);
    var i := 0;
    while i < size - 1 && src[i] != NUL
      invariant 0 <= i <= |s| && dst[..i] == s[..i] && src[..] == old(src[..])
      decreases |s| - i
    {
      dst[i] := src[i];
      i := i + 1;
    }
    assert s[..i] == s;
    dst[i] := NUL;
    assert dst[..][0..|s|] == s;
  }

  // ---------- resolve_path ----------

  /** The collected pieces: each is still a C string in the copy, ending before `limit`. */
  predicate Collected(buf: seq<char>, starts: seq<nat>, ts: seq<Name>, limit: nat) {
    |starts| <= |ts| && forall k {:trigger starts[k]} :: 0 <= k < |starts| ==>
      Has(buf, starts[k], ts[k]) && starts[k] + |ts[k]| < limit
  }

  /** Cutting off a later token leaves those collected. */
  lemma CollectedKept(buf: seq<char>, starts: seq<nat>, ts: seq<Name>, limit: nat, buf': seq<char>, at: nat)
    requires Collected(buf, starts, ts, limit) && limit <= at < |buf| && buf' == buf[at := NUL]
    ensures Collected(buf', starts, ts, limit)
  {
    forall k | 0 <= k < |starts|
      ensures Has(buf', starts[k], ts[k])
    {
      assert buf'[starts[k]..starts[k] + |ts[k]|] == buf[starts[k]..starts[k] + |ts[k]|];
    }
  }

  /** Lines 11-23: split the copy at its slashes with strtok. */
  method Separate(copy: array<char>, separator_count: nat, tok: StrTok, ghost s: seq<char>)
    returns (separated: array<nat>, count: nat)
    requires Has(copy[..], 0, s) && separator_count >= |Tokens(s, '/')|
    modifies copy, tok
    ensures fresh(separated) && separated.Length == separator_count && count == |Tokens(s, '/')|
    ensures Collected(copy[..], separated[..count], Tokens(s, '/'), copy.Length)
  {
    ghost var ts := Tokens(s, '/');
    separated := new nat[separator_count];
    count := 0;
    hide *;
    var token := CollectFirst(copy, tok, s);
    ghost var starts: seq<nat> := [];
    while token >= 0
      invariant tok.current_str == copy && -1 <= token && |starts| == count
      invariant count <= |ts| <= separator_count == separated.Length
      invariant separated[..count] == starts
      invariant Pending(copy, tok, starts, ts, token)
      decreases |ts| - count
    {
      AllCollected(copy, tok, starts, ts, token);
      Store(separated, count, token, starts);
      count := count + 1;
      starts, token := CollectNext(copy, tok, starts, ts, token);
    }
    AllCollected(copy, tok, starts, ts, token);
  }

  method Store(a: array<nat>, n: nat, x: nat, ghost s: seq<nat>)
    requires n < a.Length && a[..n] == s
    modifies a
    ensures a[..n + 1] == s + [x]
  {
    a[n] := x;
  }

  /** Between two calls of strtok: `starts` are collected, and `token`, if there is one, comes next. */
  ghost predicate Pending(copy: array<char>, tok: StrTok, starts: seq<nat>, ts: seq<Name>, token: int)
    reads copy, tok, tok.current_str
  {
    && tok.Valid() && -1 <= token && |starts| <= |ts|
    && (token == -1 ==> |starts| == |ts| && Collected(copy[..], starts, ts, copy.Length))
    && (token != -1 ==> |starts| < |ts| && Has(copy[..], token, ts[|starts|]) && tok.i == token + |ts[|starts|]| + 1)
    && (token != -1 ==> Tokens(tok.Rest(), '/') == ts[|starts| + 1..] && Collected(copy[..], starts, ts, token))
  }

  lemma AllCollected(copy: array<char>, tok: StrTok, starts: seq<nat>, ts: seq<Name>, token: int)
    requires Pending(copy, tok, starts, ts, token)
    ensures token == -1 ==> |starts| == |ts| && Collected(copy[..], starts, ts, copy.Length)
    ensures token != -1 ==> |starts| < |ts|
  {
  }

  method CollectFirst(copy: array<char>, tok: StrTok, ghost s: seq<char>) returns (token: int)
    requires Has(copy[..], 0, s)
    modifies copy, tok
    ensures tok.current_str == copy && Pending(copy, tok, [], Tokens(s, '/'), token)
  {
    ghost var buf, ts := copy[..], Tokens(s, '/');
    CStrHas(copy[..], 0, s);
    assert copy[0..] == copy[..][0..] && copy[0..][|s|] == NUL;
    hide Tokens, CStr, Cut, Has, Collected;
    NoneCollected(ts);
    token := tok.First(copy, 0, '/');
    if ts == [] {
      CutNone(buf, 0, s, copy[..], token);
    } else {
      CutHas(buf, 0, s, copy[..], token);
      CStrHas(copy[..], token, ts[0]);
      assert copy[..][token..] == copy[token..];
    }
  }

  /** The next token keeps those collected so far. */
  method CollectNext(copy: array<char>, tok: StrTok, ghost starts: seq<nat>, ghost ts: seq<Name>, ghost last: nat)
    returns (ghost starts': seq<nat>, token: int)
    requires tok.current_str == copy && Pending(copy, tok, starts, ts, last)
    modifies tok`i, tok`finished, copy
    ensures starts' == starts + [last] && Pending(copy, tok, starts', ts, token)
  {
    ghost var buf, i, rest, n := copy[..], tok.i, tok.Rest(), |starts| + 1;
    hide Tokens, CStr, Cut;
    starts' := starts + [last];
    assert Collected(buf, starts', ts, i);
    token := tok.Next('/');
    if n == |ts| {
      CutNone(buf, i, rest, copy[..], token);
    } else {
      assert Tokens(rest, '/')[0] == ts[n];
      CutHas(buf, i, rest, copy[..], token);
      CollectedKept(buf, starts', ts, i, copy[..], token + |ts[n]|);
      CStrHas(copy[..], token, ts[n]);
      assert copy[..][token..] == copy[token..];
    }
  }

  lemma NoneCollected(ts: seq<Name>)
    ensures forall buf, limit :: Collected(buf, [], ts, limit)
  {
  }

  lemma CutNone(buf: seq<char>, from: nat, rest: seq<char>, buf': seq<char>, start: int)
    requires Cut(buf, from, rest, '/', buf', start) && Tokens(rest, '/') == []
    ensures start == -1 && buf' == buf
  {
  }

  lemma CutHas(buf: seq<char>, from: nat, rest: seq<char>, buf': seq<char>, start: int)
    requires Cut(buf, from, rest, '/', buf', start) && Tokens(rest, '/') != []
    ensures start >= from && Has(buf', start, Tokens(rest, '/')[0])
    ensures var e := start + |Tokens(rest, '/')[0]|; e < |buf| && buf' == buf[e := NUL]
  {
    var t := Tokens(rest, '/')[0];
    assert buf'[start..][|t|] == NUL;
    HasCStr(buf', start);
  }

  /** The path rebuilt so far. */
  predicate Built(buf: seq<char>, s: seq<char>, st: seq<Name>, idx: nat) {
    |s| < |buf| && Has(buf, 0, Join(st, '/')) && idx == |Join(st, '/')| <= |s|
  }

  /** The index stack: where each component's slash is. */
  predicate Marks(stack: seq<nat>, st: seq<Name>) {
    |st| <= |stack| && forall k {:trigger stack[k]} :: 0 <= k < |st| ==> stack[k] == |Join(st[..k], '/')|
  }

  lemma MarksPush(stack: seq<nat>, st: seq<Name>, t: Name)
    requires Marks(stack, st) && |st| < |stack|
    ensures Marks(stack[|st| := |Join(st, '/')|], st + [t])
  {
    forall k | 0 <= k < |st| + 1
      ensures stack[|st| := |Join(st, '/')|][k] == |Join((st + [t])[..k], '/')|
    {
      assert (st + [t])[..k] == st[..k];
      assert st[..|st|] == st;
    }
  }

  lemma MarksPop(stack: seq<nat>, st: seq<Name>)
    requires Marks(stack, st) && st != []
    ensures Marks(stack, st[..|st| - 1]) && stack[|st| - 1] == |Join(st[..|st| - 1], '/')|
  {
    forall k | 0 <= k < |st| - 1
      ensures st[..|st| - 1][..k] == st[..k]
    {
    }
  }

  lemma BuiltPop(buf: seq<char>, s: seq<char>, st: seq<Name>, idx: nat)
    requires Built(buf, s, st, idx) && st != []
    ensures var st' := st[..|st| - 1]; var n := |Join(st', '/')|; n < |buf| && Built(buf[n := NUL], s, st', n)
  {
    var st', j := st[..|st| - 1], Join(st, '/');
    assert st == st' + [st[|st| - 1]];
    JoinConcat(st', [st[|st| - 1]]);
    var n := |Join(st', '/')|;
    assert Join(st', '/') == j[..n] == buf[0..|j|][..n] == buf[..n];
    assert buf[n := NUL][0..n] == buf[..n];
  }

  lemma BuiltRoom(buf: seq<char>, s: seq<char>, st: seq<Name>, idx: nat, t: Name)
    requires Built(buf, s, st, idx) && |Join(st, '/')| + 1 + |t| <= |s|
    ensures idx + |t| + 1 <= |s| < |buf| && (st == [] ==> idx == 0 && buf[0 := NUL] == buf)
  {
  }

  lemma BuiltPush(buf: seq<char>, s: seq<char>, st: seq<Name>, idx: nat, t: Name, buf': seq<char>)
    requires Built(buf, s, st, idx) && idx + 1 + |t| <= |s| && NUL !in t
    requires buf' == buf[..idx] + ['/'] + t + [NUL] + buf[idx + |t| + 2..]
    ensures Built(buf', s, st + [t], idx + 1 + |t|)
  {
    JoinConcat(st, [t]);
    JoinOne(t);
    assert buf[..idx] == buf[0..idx] == Join(st, '/');
    assert buf'[0..idx + 1 + |t|] == Join(st, '/') + ['/'] + t == Join(st + [t], '/');
  }

  /** Lines 46-50: a slash, the component and a NUL. */
  method Append(path: array<char>, current_idx: nat, copy: array<char>, current: nat, ghost t: Name) returns (idx: nat)
    requires path != copy && Has(copy[..], current, t) && current_idx + |t| + 1 < path.Length
    modifies path
    ensures idx == current_idx + 1 + |t|
    ensures path[..] == old(path[..])[..current_idx] + ['/'] + t + [NUL] + old(path[..])[idx + 1..]
  {
    ghost var buf := path[..];
    var j := 0;
    path[current_idx] := '/';
    idx := current_idx + 1;
    while copy[current + j] != NUL
      invariant 0 <= j <= |t| && idx == current_idx + 1 + j
      invariant path[..] == buf[..current_idx] + ['/'] + t[..j] + buf[idx..]
      decreases |t| - j
    {
      assert copy[..][current..current + |t|][j] == t[j];
      path[idx] := copy[current + j];
      idx, j := idx + 1, j + 1;
    }
    assert t[..j] == t;
    path[idx] := NUL;
  }

  /** Lines 30-51: one component. */
  method Component(path: array<char>, copy: array<char>, current: nat, stack: array<nat>, current_stack: nat,
                   current_idx: nat, ghost s: seq<char>, ghost st: seq<Name>, ghost t: Name)
    returns (top: nat, idx: nat)
    requires path != copy && Has(copy[..], current, t) && |Join(st, '/')| + 1 + |t| <= |s|
    requires Built(path[..], s, st, current_idx) && current_stack == |st| < stack.Length && Marks(stack[..], st)
    modifies path, stack
    ensures top == |Push(st, t)| && Marks(stack[..], Push(st, t)) && Built(path[..], s, Push(st, t), idx)
    ensures path[|s| + 1..] == old(path[|s| + 1..])
  {
    top, idx := current_stack, current_idx;
    ghost var buf := path[..];
    assert Has(['.', NUL], 0, ".") && Has(['.', '.', NUL], 0, "..");
    BuiltRoom(buf, s, st, idx, t);
    hide Built, Marks, Join, Has;
    var dot := StrCmp(copy, current, ['.', NUL], t, ".");
    var dotdot := StrCmp(copy, current, ['.', '.', NUL], t, "..");
    if dot == 0 {
    } else if dotdot == 0 {
      if current_stack == 0 {
        idx := 0;
      } else {
        BuiltPop(buf, s, st, idx);
        MarksPop(stack[..], st);
        top := top - 1;
        idx := stack[top];
      }
      path[idx] := NUL;
    } else {
      MarksPush(stack[..], st, t);
      stack[top] := idx;
      top := top + 1;
      idx := Append(path, idx, copy, current, t);
      BuiltPush(buf, s, st, current_idx, t, path[..]);
    }
  }

  /** Lines 25-52: rebuild the path from its pieces. */
  method Rebuild(path: array<char>, copy: array<char>, separated: array<nat>, count: nat, ghost s: seq<char>,
                 ghost ts: seq<Name>)
    requires path != copy && |s| < path.Length && count == |ts| <= separated.Length
    requires Collected(copy[..], separated[..count], ts, copy.Length) && |Join(ts, '/')| <= |s|
    modifies path
    ensures Has(path[..], 0, Join(Fold([], ts), '/')) && path[|s| + 1..] == old(path[|s| + 1..])
  {
    var stack := new nat[separated.Length];
    var current_stack, current_idx := 0, 0;
    path[0] := NUL;
    ghost var st: seq<Name> := [];
    var i := 0;
    while i < count
      invariant i <= count && st == Fold([], ts[..i])
      invariant current_stack == |st| <= i && Marks(stack[..], st) && Built(path[..], s, st, current_idx)
      invariant |Join(st, '/')| + |Join(ts[i..], '/')| <= |s| && path[|s| + 1..] == old(path[|s| + 1..])
    {
      var current := separated[i];
      assert separated[..count][i] == current && ts[i..] == [ts[i]] + ts[i + 1..];
      Step(st, ts, i);
      current_stack, current_idx := Component(path, copy, current, stack, current_stack, current_idx, s, st, ts[i]);
      st := Push(st, ts[i]);
      i := i + 1;
    }
    assert ts[..count] == ts;
  }

  /** A component takes no more room than it had. */
  lemma Step(st: seq<Name>, ts: seq<Name>, i: nat)
    requires i < |ts| && st == Fold([], ts[..i])
    ensures Push(st, ts[i]) == Fold([], ts[..i + 1]) && |Push(st, ts[i])| <= |st| + 1
    ensures |Join(ts[i..], '/')| == 1 + |ts[i]| + |Join(ts[i + 1..], '/')|
    ensures |Join(Push(st, ts[i]), '/')| <= |Join(st, '/')| + 1 + |ts[i]|
  {
    FoldSnoc([], ts[..i], ts[i]);
    assert ts[..i + 1] == ts[..i] + [ts[i]];
    assert ts[i..][1..] == ts[i + 1..];
    JoinConcat(st, [ts[i]]);
    JoinOne(ts[i]);
    if st != [] {
      assert st == st[..|st| - 1] + [st[|st| - 1]];
      JoinConcat(st[..|st| - 1], [st[|st| - 1]]);
    }
  }

  /** Lines 11-14. */
  method CountSeparators(copy: array<char>, size: nat, ghost s: seq<char>) returns (separator_count: nat)
    requires Has(copy[..], 0, s) && size == |s| + 1
    ensures separator_count == Slashes(s)
  {
    HasAt(copy[..], s);
    separator_count := 0;
    var i := 0;
    assert s[..0] == [];
    while i < size
      invariant i <= size && separator_count == Slashes(s[..if i < size then i else |s|])
    {
      if i < |s| {
        assert s[..i + 1] == s[..i] + [s[i]];
        SlashesConcat(s[..i], [s[i]]);
      }
      if copy[i] == '/' { separator_count := separator_count + 1; }
      i := i + 1;
    }
    assert s[..|s|] == s;
  }

  /** An absolute path is replaced by what it resolves to, inside the room it had; any other is refused. */
  method ResolvePath(path: array<char>, tok: StrTok) returns (r: int)
    requires NUL in path[..]
    modifies path, tok
    ensures var s := CStr(old(path[..]));
      if s == [] || s[0] != '/' then r == -1 && path[..] == old(path[..])
      else r == 0 && CStr(path[..]) == Resolved(s) && path[|s| + 1..] == old(path[|s| + 1..])
  {
    ghost var s := CStr(path[..]);
    assert path[..] == path[..][0..];
    HasCStr(path[..], 0);
    if path[0] != '/' { return -1; }
    HasAt(path[..], s);
    var size := StrLen(path, s);
    size := size + 1;
    var copy := new char[size];
    StrCpyAll(copy, path, size, s);
    var separator_count := CountSeparators(copy, size, s);
    TokensFit(s);
    var separated, count := Separate(copy, separator_count, tok, s);
    ghost var ts := Tokens(s, '/');
    Rebuild(path, copy, separated, count, s, ts);
    EndPath(path, s, Fold([], ts));
    CStrHas(path[..], 0, Resolved(s));
    assert path[..][0..] == path[..];
    r := 0;
  }

  /** Lines 54-55: a path that lost all its components is the root. */
  method EndPath(path: array<char>, ghost s: seq<char>, ghost st: seq<Name>)
    requires s != [] && |s| < path.Length && Has(path[..], 0, Join(st, '/'))
    modifies path
    ensures Has(path[..], 0, Rendered(st)) && path[|s| + 1..] == old(path[|s| + 1..])
  {
    HasAt(path[..], Join(st, '/'));
    if path[0] == NUL {
      path[0] := '/';
      path[1] := NUL;
      assert path[..][0..1] == "/";
    }
  }
}
