/** `str_len` and `strtok` of src/shared/code/string.c: the latter with its static cursor, against the sequence of
    tokens of a string. */
module CStrings {
  import opened FatLayout

  /** `str_len` of src/shared/code/string.c. */
  method StrLen(str: array<char>, ghost text: seq<char>) returns (i: nat)
    requires str.Length > |text| && str[..|text|] == text && str[|text|] == NUL && NUL !in text
    ensures i == |text|
  {
    forall j | 0 <= j < |text|
      ensures str[j] != NUL
    {
      assert str[j] == text[j] && text[j] in text;
    }
    i := 0;
    while str[i] != NUL
      invariant i <= |text|
      decreases |text| - i
    {
      i := i + 1;
    }
  }

  /** Length of the longest prefix without the delimiter. */
  function Span(s: seq<char>, d: char): (n: nat)
    ensures n <= |s| && d !in s[..n] && (n < |s| ==> s[n] == d)
  {
    if s == [] || s[0] == d then 0 else 1 + Span(s[1..], d)
  }

  /** The maximal non-empty pieces between delimiters. */
  function Tokens(s: seq<char>, d: char): seq<seq<char>>
    decreases |s|
  {
    if s == [] then []
    else if s[0] == d then Tokens(s[1..], d)
    else [s[..Span(s, d)]] + Tokens(s[Span(s, d)..], d)
  }

  /** Tokens are exactly the non-empty pieces: none is empty or contains the delimiter, and
      rejoining them behind delimiters gives a string with the same tokens. */
  lemma {:induction false} TokensPlain(s: seq<char>, d: char)
    ensures forall t | t in Tokens(s, d) :: t != [] && d !in t && (NUL !in s ==> NUL !in t)
    decreases |s|
  {
    if s == [] {
    } else if s[0] == d {
      TokensPlain(s[1..], d);
    } else {
      TokensPlain(s[Span(s, d)..], d);
    }
  }

  function Join(ts: seq<seq<char>>, d: char): seq<char> {
    if ts == [] then [] else [d] + ts[0] + Join(ts[1..], d)
  }

  lemma {:induction false} SpanAt(a: seq<char>, b: seq<char>, d: char)
    requires d !in a && (b == [] || b[0] == d)
    ensures Span(a + b, d) == |a|
  {
    if a != [] {
      SpanAt(a[1..], b, d);
      assert (a + b)[1..] == a[1..] + b;
    } else {
      assert a + b == b;
    }
  }

  /** A token followed by a delimiter, or by nothing, is split off first. */
  lemma TokensHead(a: seq<char>, b: seq<char>, d: char)
    requires a != [] && d !in a && (b == [] || b[0] == d)
    ensures Tokens(a + b, d) == [a] + Tokens(b, d)
  {
    SpanAt(a, b, d);
    assert (a + b)[..|a|] == a && (a + b)[|a|..] == b;
    assert (a + b)[0] == a[0];
  }

  lemma {:induction false} TokensJoin(ts: seq<seq<char>>, d: char)
    requires forall k :: 0 <= k < |ts| ==> ts[k] != [] && d !in ts[k]
    ensures Tokens(Join(ts, d), d) == ts
  {
    if ts != [] {
      var rest := Join(ts[1..], d);
      TokensJoin(ts[1..], d);
      TokensHead(ts[0], rest, d);
      assert Join(ts, d)[1..] == ts[0] + rest;
    }
  }

  lemma Regroup(a: seq<char>, b: seq<char>, c: seq<char>, e: seq<char>)
    ensures a + b + c + e == a + (b + c + e)
  {
  }

  /** Tokens of a string with a delimiter and one more piece appended. */
  lemma {:induction false} TokensSnoc(s: seq<char>, t: seq<char>, d: char)
    requires t != [] && d !in t
    ensures Tokens(s + [d] + t, d) == Tokens(s, d) + [t]
    decreases |s|
  {
    if s == [] {
      assert (s + [d] + t)[1..] == t;
      TokensHead(t, [], d);
      assert t + [] == t;
    } else if s[0] == d {
      TokensSnoc(s[1..], t, d);
      assert (s + [d] + t)[1..] == s[1..] + [d] + t;
    } else {
      hide Tokens;
      var n := Span(s, d);
      var a, b := s[..n], s[n..];
      TokensSnoc(b, t, d);
      assert s == a + b;
      TokensHead(a, b, d);
      TokensHead(a, b + [d] + t, d);
      Regroup(a, b, [d], t);
    }
  }

  /** A delimiter at the end adds no token. */
  lemma {:induction false} TokensEnd(s: seq<char>, d: char)
    ensures Tokens(s + [d], d) == Tokens(s, d)
    decreases |s|
  {
    if s == [] {
      assert (s + [d])[1..] == [];
    } else if s[0] == d {
      TokensEnd(s[1..], d);
      assert (s + [d])[1..] == s[1..] + [d];
    } else {
      hide Tokens;
      var n := Span(s, d);
      var a, b := s[..n], s[n..];
      TokensEnd(b, d);
      assert s == a + b && s + [d] == a + (b + [d]);
      TokensHead(a, b, d);
      TokensHead(a, b + [d], d);
    }
  }

  /** Dropping leading delimiters loses no token. */
  lemma {:induction false} TokensSkip(s: seq<char>, k: nat, d: char)
    requires k <= |s| && forall j :: 0 <= j < k ==> s[j] == d
    ensures Tokens(s, d) == Tokens(s[k..], d)
  {
    if k > 0 {
      TokensSkip(s[1..], k - 1, d);
      assert s[1..][k - 1..] == s[k..];
    }
  }

  lemma {:induction false} CStrSuffix(buf: seq<char>, k: nat)
    requires k <= |CStr(buf)|
    ensures CStr(buf)[k..] == CStr(buf[k..])
  {
    if k > 0 {
      CStrSuffix(buf[1..], k - 1);
      assert buf[1..][k - 1..] == buf[k..];
      assert CStr(buf)[k..] == CStr(buf[1..])[k - 1..];
    }
  }

  /** The static variables of `strtok`. */
  class StrTok {
    var current_str: array<char>
    var i: nat
    var finished: bool

    constructor ()
      ensures fresh(this) && fresh(current_str) && Valid() && Rest() == []
    {
      current_str := new char[1](_ => NUL);
      i := 0;
      finished := true;
    }

    /** The cursor is inside a NUL-terminated string, unless that string is used up. */
    ghost predicate Valid()
      reads this, current_str
    {
      i <= current_str.Length && (!finished ==> NUL in current_str[i..])
    }

    ghost function Rest(): seq<char>
      requires Valid()
      reads this, current_str
    {
      if finished then [] else CStr(current_str[i..])
    }

    /** `strtok(&str[from], delimiter)` with a string: restart on it. */
    method First(str: array<char>, from: nat, delimiter: char) returns (start: int)
      requires from <= str.Length && NUL in str[from..] && delimiter != NUL
      modifies this, str
      ensures current_str == str && Valid()
      ensures Cut(old(str[..]), from, CStr(old(str[from..])), delimiter, str[..], start)
      ensures start >= 0 ==> i == start + |CStr(str[start..])| + 1
      ensures Tokens(Rest(), delimiter) == Later(CStr(old(str[from..])), delimiter)
    {
      i := from;
      current_str := str;
      finished := false;
      start := Next(delimiter);
    }

    /** `strtok(NULL, delimiter)`: the next token, ended in place by a NUL. */
    method Next(delimiter: char) returns (start: int)
      requires Valid() && delimiter != NUL
      modifies this`i, this`finished, current_str
      ensures Valid()
      ensures Cut(old(current_str[..]), old(i), old(Rest()), delimiter, current_str[..], start)
      ensures start >= 0 ==> i == start + |CStr(current_str[start..])| + 1
      ensures Tokens(Rest(), delimiter) == Later(old(Rest()), delimiter)
    {
      hide Tokens, CStr, Cut, Later;
      NoCut(delimiter, current_str[..], i, Rest());
      TokensEmpty(delimiter);
      if finished { return -1; }
      ghost var buf, i0 := current_str[..], i;
      assert current_str[i..] == buf[i0..];
      ghost var end := EndOf(buf, i0);
      Scan(delimiter, true, buf, end);
      var s := i;
      CutTokens(buf, i0, end, s, s, delimiter);
      if current_str[i] == NUL {
        CStrSlice(buf, i, end);
        assert current_str[i..] == buf[i..];
        assert buf[i..][end - i] == NUL;
        return -1;
      }
      start := TakeToken(delimiter, buf, i0, end);
    }

    /** The second scan of `strtok`, from the first character of a token. */
    method TakeToken(delimiter: char, ghost buf: seq<char>, ghost i0: nat, ghost end: nat) returns (start: int)
      requires buf == current_str[..] && i0 <= i < end < |buf| && buf[end] == NUL && delimiter != NUL
      requires forall j :: i0 <= j < end ==> buf[j] != NUL
      requires (forall j :: i0 <= j < i ==> buf[j] == delimiter) && buf[i] != delimiter
      modifies this`i, this`finished, current_str
      ensures Valid() && start >= 0 && start <= current_str.Length && i == start + |CStr(current_str[start..])| + 1
      ensures Cut(buf, i0, buf[i0..end], delimiter, current_str[..], start)
      ensures Tokens(Rest(), delimiter) == Later(buf[i0..end], delimiter)
    {
      hide Tokens, CStr, Cut, Later;
      var s := i;
      Scan(delimiter, false, buf, end);
      ghost var e := i;
      CutTokens(buf, i0, end, s, e, delimiter);
      CutOk(buf, i0, s, e, end, delimiter, buf[e := NUL]);
      EndToken(buf, s, end);
      TokensEmpty(delimiter);
      return s;
    }

    /** End the token in place and step over the delimiter. */
    method EndToken(ghost buf: seq<char>, ghost s: nat, ghost end: nat)
      requires buf == current_str[..] && s <= i <= end < |buf| && buf[end] == NUL
      requires forall j :: s <= j < end ==> buf[j] != NUL
      modifies this`i, this`finished, current_str
      ensures Valid() && i == old(i) + 1 && current_str[..] == buf[old(i) := NUL]
      ensures CStr(current_str[s..]) == buf[s..old(i)]
      ensures Rest() == if old(i) == end then [] else buf[old(i) + 1..end]
    {
      hide CStr;
      finished := current_str[i] == NUL;
      current_str[i] := NUL;
      CutAt(buf, s, i, end, current_str[..]);
      assert current_str[..][s..] == current_str[s..] && current_str[..][i + 1..] == current_str[i + 1..];
      i := i + 1;
    }

    /** The two scanning loops: past delimiters, or past characters other than the delimiter. */
    method Scan(delimiter: char, over: bool, ghost buf: seq<char>, ghost end: nat)
      requires buf == current_str[..] && i <= end < |buf| && buf[end] == NUL && delimiter != NUL
      requires forall j :: i <= j < end ==> buf[j] != NUL
      modifies this`i
      ensures old(i) <= i <= end && (i < end ==> (buf[i] == delimiter) != over)
      ensures forall j :: old(i) <= j < i ==> (buf[j] == delimiter) == over
      ensures buf == current_str[..]
    {
      while current_str[i] != NUL && (current_str[i] == delimiter) == over
        invariant old(i) <= i <= end
        invariant forall j :: old(i) <= j < i ==> (buf[j] == delimiter) == over
        decreases end - i
      {
        i := i + 1;
      }
    }
  }

  /** After the token at `s..e` got its NUL, it reads as a C string and the string behind it is intact. */
  lemma CutAt(buf: seq<char>, s: nat, e: nat, end: nat, buf': seq<char>)
    requires s <= e <= end < |buf| && buf' == buf[e := NUL] && buf[end] == NUL
    requires forall j :: s <= j < end ==> buf[j] != NUL
    ensures CStr(buf'[s..]) == buf[s..e]
    ensures e < end ==> NUL in buf'[e + 1..] && CStr(buf'[e + 1..]) == buf[e + 1..end]
  {
    CStrSlice(buf', s, e);
    assert buf'[s..e] == buf[s..e];
    if e < end {
      CStrSlice(buf', e + 1, end);
      assert buf'[e + 1..end] == buf[e + 1..end];
      assert buf'[e + 1..][end - e - 1] == NUL;
    }
  }

  lemma NoCut(d: char, buf: seq<char>, from: nat, rest: seq<char>)
    ensures Tokens(rest, d) == [] ==> Cut(buf, from, rest, d, buf, -1) && Later(rest, d) == []
  {
  }

  lemma CutOk(buf: seq<char>, i: nat, s: nat, e: nat, end: nat, d: char, buf': seq<char>)
    requires i <= s < e <= end < |buf| && buf' == buf[e := NUL]
    requires forall j :: s <= j < e ==> buf[j] != NUL
    requires Tokens(buf[i..end], d) == [buf[s..e]] + (if e == end then [] else Tokens(buf[e + 1..end], d))
    ensures Cut(buf, i, buf[i..end], d, buf', s)
    ensures Later(buf[i..end], d) == if e == end then [] else Tokens(buf[e + 1..end], d)
  {
    hide Tokens, CStr;
    CStrSlice(buf', s, e);
    assert buf'[s..e] == buf[s..e];
  }

  lemma TokensDrop(s: seq<char>, d: char)
    requires s != [] && s[0] == d
    ensures Tokens(s, d) == Tokens(s[1..], d)
  {
  }

  lemma TokensEmpty(d: char)
    ensures Tokens([], d) == []
  {
  }

  /** Index of the NUL ending the string that starts at `i`. */
  lemma EndOf(buf: seq<char>, i: nat) returns (end: nat)
    requires i <= |buf| && NUL in buf[i..]
    ensures i <= end < |buf| && buf[end] == NUL && (forall j :: i <= j < end ==> buf[j] != NUL)
    ensures CStr(buf[i..]) == buf[i..end]
  {
    var s := buf[i..];
    end := i + |CStr(s)|;
    var k :| 0 <= k < |s| && s[k] == NUL;
    CStrNul(s, k);
    assert buf[end] == s[|CStr(s)|];
    forall j | i <= j < end
      ensures buf[j] != NUL
    {
      assert buf[j] == CStr(s)[j - i];
    }
  }

  lemma {:induction false} CStrNul(s: seq<char>, k: nat)
    requires k < |s| && s[k] == NUL
    ensures |CStr(s)| <= k
  {
    if k > 0 && s[0] != NUL { CStrNul(s[1..], k - 1); }
  }

  lemma CStrSlice(buf: seq<char>, i: nat, end: nat)
    requires i <= end < |buf| && buf[end] == NUL && (forall j :: i <= j < end ==> buf[j] != NUL)
    ensures CStr(buf[i..]) == buf[i..end]
  {
    assert buf[i..][..end - i] == buf[i..end];
    CStrIs(buf[i..], buf[i..end]);
  }

  /** Skipping delimiters up to `a` and scanning a token up to `c` splits the tokens of the string. */
  lemma CutString(t: seq<char>, a: nat, c: nat, d: char)
    requires a <= c <= |t|
    requires (forall j :: 0 <= j < a ==> t[j] == d) && (forall j :: a <= j < c ==> t[j] != d)
    requires a < c < |t| ==> t[c] == d
    ensures a == |t| ==> Tokens(t, d) == []
    ensures a < c ==> Tokens(t, d) == [t[a..c]] + (if c == |t| then [] else Tokens(t[c + 1..], d))
  {
    hide Tokens;
    TokensSkip(t, a, d);
    TokensEmpty(d);
    if a < c {
      TokensHead(t[a..c], t[c..], d);
      assert t[a..] == t[a..c] + t[c..];
      if c < |t| {
        TokensDrop(t[c..], d);
        assert t[c..][1..] == t[c + 1..];
      }
    }
  }

  lemma CutTokens(buf: seq<char>, i: nat, end: nat, s: nat, e: nat, d: char)
    requires i <= s <= e <= end < |buf|
    requires (forall j :: i <= j < s ==> buf[j] == d) && (forall j :: s <= j < e ==> buf[j] != d)
    requires e < end ==> s == e || buf[e] == d
    ensures s == end ==> Tokens(buf[i..end], d) == []
    ensures s < e ==> Tokens(buf[i..end], d) == [buf[s..e]] + (if e == end then [] else Tokens(buf[e + 1..end], d))
  {
    hide Tokens;
    var t := buf[i..end];
    CutString(t, s - i, e - i, d);
    SliceSlice(buf, i, end, s - i, e - i);
    if e < end { SliceSlice(buf, i, end, e - i + 1, end - i); }
  }

  lemma SliceSlice(buf: seq<char>, i: nat, end: nat, a: nat, b: nat)
    requires i <= end <= |buf| && a <= b <= end - i
    ensures buf[i..end][a..b] == buf[i + a..i + b]
  {
    forall k | 0 <= k < b - a
      ensures buf[i..end][a..b][k] == buf[i + a..i + b][k]
    {
    }
  }

  /** Tokens after the first. */
  function Later(s: seq<char>, d: char): seq<seq<char>> {
    if Tokens(s, d) == [] then [] else Tokens(s, d)[1..]
  }

  /** One call on `buf` with the string `rest` left from `from` on: -1 and no change when no token is left,
      otherwise the start of the first token, which a single NUL now ends. */
  ghost predicate Cut(buf: seq<char>, from: nat, rest: seq<char>, d: char, buf': seq<char>, start: int) {
    if Tokens(rest, d) == [] then start == -1 && buf' == buf
    else
      var t := Tokens(rest, d)[0];
      from <= start && start + |t| < |buf| && buf' == buf[start + |t| := NUL] && CStr(buf'[start..]) == t
  }
}
