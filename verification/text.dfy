/**
  The handful of Python `str` operations the header reader relies on, over
  `string` (a `seq<char>`): `strip()`, `split(sep)`, `split()` (runs of
  whitespace), `startswith` and `str(int)`.
 */
module Text {

  /** Python's `str.isspace` for one character. */
  predicate IsSpace(c: char) {
    || c == ' ' || c == '\t' || c == '\n' || c == '\r' || c == '\U{0B}' || c == '\U{0C}'
    || ('\U{1C}' <= c <= '\U{1F}') || c == '\U{85}' || c == '\U{A0}' || c == '\U{1680}'
    || ('\U{2000}' <= c <= '\U{200A}') || c == '\U{2028}' || c == '\U{2029}'
    || c == '\U{202F}' || c == '\U{205F}' || c == '\U{3000}'
  }

  predicate NoSpace(s: string) {
    forall i :: 0 <= i < |s| ==> !IsSpace(s[i])
  }

  predicate StartsWith(s: string, c: char) {
    |s| > 0 && s[0] == c
  }

  /* ---------------------------------------------------------------- strip */

  /** `s.lstrip()`: drops the leading whitespace. */
  function TrimLeft(s: string): (r: string)
    ensures |r| <= |s| && r == s[|s| - |r|..]
    ensures forall k :: 0 <= k < |s| - |r| ==> IsSpace(s[k])
    ensures r != [] ==> !IsSpace(r[0])
  {
    if s != [] && IsSpace(s[0]) then TrimLeft(s[1..]) else s
  }

  /** `s.rstrip()`: drops the trailing whitespace. */
  function TrimRight(s: string): (r: string)
    ensures |r| <= |s| && r == s[..|r|]
    ensures forall k :: |r| <= k < |s| ==> IsSpace(s[k])
    ensures r != [] ==> !IsSpace(r[|r| - 1])
  {
    if s != [] && IsSpace(s[|s| - 1]) then TrimRight(s[..|s| - 1]) else s
  }

  /** `r` is `s` with whitespace-only margins `s[..i]` and `s[i + |r|..]` removed. */
  ghost predicate StrippedAt(s: string, r: string, i: int) {
    && 0 <= i <= |s| - |r|
    && s[i..i + |r|] == r
    && (forall k :: 0 <= k < i ==> IsSpace(s[k]))
    && (forall k :: i + |r| <= k < |s| ==> IsSpace(s[k]))
  }

  /** `s.strip()`: the text between the leading and the trailing whitespace,
      inner whitespace untouched. */
  function Strip(s: string): (r: string)
    ensures exists i :: StrippedAt(s, r, i)
    ensures r != [] ==> !IsSpace(r[0]) && !IsSpace(r[|r| - 1])
  {
    var l := TrimLeft(s);
    var r := TrimRight(l);
    assert StrippedAt(s, r, |s| - |l|) by {
      assert s[|s| - |l|..][..|r|] == r;
      forall k | |s| - |l| + |r| <= k < |s| ensures IsSpace(s[k]) {
        assert s[k] == l[k - (|s| - |l|)];
      }
    }
    r
  }

  /** Stripping twice is stripping once. */
  lemma StripIdempotent(s: string)
    ensures Strip(Strip(s)) == Strip(s)
  {
    var r := Strip(s);
    if r != [] {
      assert !IsSpace(r[0]) && !IsSpace(r[|r| - 1]);
      assert TrimLeft(r) == r;
      assert TrimRight(r) == r;
    }
  }

  /** Conversely, text with whitespace-only margins strips to its middle:
      `strip` is determined by the three properties above. */
  lemma {:induction false} StripSurrounded(pre: string, w: string, post: string)
    requires forall k :: 0 <= k < |pre| ==> IsSpace(pre[k])
    requires forall k :: 0 <= k < |post| ==> IsSpace(post[k])
    requires w != [] ==> !IsSpace(w[0]) && !IsSpace(w[|w| - 1])
    ensures Strip(pre + w + post) == w
  {
    if w == [] {
      assert pre + w + post == (pre + post) + [];
      TrimLeftSpaces(pre + post, []);
    } else {
      assert pre + w + post == pre + (w + post);
      TrimLeftSpaces(pre, w + post);
      TrimRightSpaces(w, post);
    }
  }

  lemma {:induction false} TrimLeftSpaces(pre: string, rest: string)
    requires forall k :: 0 <= k < |pre| ==> IsSpace(pre[k])
    requires rest != [] ==> !IsSpace(rest[0])
    ensures TrimLeft(pre + rest) == rest
  {
    if pre == [] {
      assert pre + rest == rest;
    } else {
      assert (pre + rest)[0] == pre[0];
      assert (pre + rest)[1..] == pre[1..] + rest;
      TrimLeftSpaces(pre[1..], rest);
    }
  }

  lemma {:induction false} TrimRightSpaces(w: string, post: string)
    requires forall k :: 0 <= k < |post| ==> IsSpace(post[k])
    requires w != [] ==> !IsSpace(w[|w| - 1])
    ensures TrimRight(w + post) == w
  {
    if post == [] {
      assert w + post == w;
    } else {
      var last := |post| - 1;
      assert (w + post)[|w + post| - 1] == post[last];
      assert (w + post)[..|w + post| - 1] == w + post[..last];
      TrimRightSpaces(w, post[..last]);
    }
  }

  /* ---------------------------------------------------------- split(sep) */

  /** Number of occurrences of `c` in `s`. */
  function Count(s: string, c: char): nat {
    if s == [] then 0 else (if s[0] == c then 1 else 0) + Count(s[1..], c)
  }

  lemma CountAppend(a: string, b: string, c: char)
    ensures Count(a + b, c) == Count(a, c) + Count(b, c)
  {
    if a == [] {
      assert a + b == b;
    } else {
      assert (a + b)[0] == a[0];
      assert (a + b)[1..] == a[1..] + b;
      CountAppend(a[1..], b, c);
    }
  }

  lemma CountAbsent(s: string, c: char)
    requires c !in s
    ensures Count(s, c) == 0
  {
    if s != [] {
      assert c !in s[1..];
      CountAbsent(s[1..], c);
    }
  }

  /** Position of the first `c` in `s`. */
  function IndexOf(s: string, c: char): (i: nat)
    requires c in s
    ensures i < |s| && s[i] == c && c !in s[..i]
  {
    if s[0] == c then 0 else 1 + IndexOf(s[1..], c)
  }

  /** The first `c` is at `j` when `s[j]` is a `c` and none comes before it. */
  lemma {:induction false} IndexOfAt(s: string, c: char, j: nat)
    requires j < |s| && s[j] == c && c !in s[..j]
    ensures IndexOf(s, c) == j
  {
    if j > 0 {
      assert s[0] == s[..j][0];
      assert s[1..][..j - 1] == s[..j][1..];
      IndexOfAt(s[1..], c, j - 1);
    }
  }

  /** Inverse of `Split`: the parts glued back with `c` between them. */
  function Join(parts: seq<string>, c: char): string
    requires |parts| >= 1
  {
    if |parts| == 1 then parts[0] else parts[0] + [c] + Join(parts[1..], c)
  }

  /** `s.split(c)`: one more part than there are `c`s, none containing `c`,
      and gluing them back with `c` gives `s`. */
  function Split(s: string, c: char): (parts: seq<string>)
    ensures |parts| == Count(s, c) + 1
    ensures forall k :: 0 <= k < |parts| ==> c !in parts[k]
    ensures Join(parts, c) == s
    decreases |s|
  {
    if c !in s then
      CountAbsent(s, c);
      [s]
    else
      var i := IndexOf(s, c);
      var rest := Split(s[i + 1..], c);
      assert s == s[..i] + [c] + s[i + 1..];
      CountAppend(s[..i] + [c], s[i + 1..], c);
      CountAppend(s[..i], [c], c);
      CountAbsent(s[..i], c);
      assert ([s[..i]] + rest)[1..] == rest;
      [s[..i]] + rest
  }

  /** Splitting a joined list of separator-free parts gives the parts back. */
  lemma {:induction false} SplitJoin(parts: seq<string>, c: char)
    requires |parts| >= 1
    requires forall k :: 0 <= k < |parts| ==> c !in parts[k]
    ensures Split(Join(parts, c), c) == parts
  {
    if |parts| == 1 {
    } else {
      var s := Join(parts, c);
      var tail := Join(parts[1..], c);
      assert s == parts[0] + [c] + tail;
      assert c in s by { assert s[|parts[0]|] == c; }
      assert s[..|parts[0]|] == parts[0];
      IndexOfAt(s, c, |parts[0]|);
      var i := IndexOf(s, c);
      assert s[..i] == parts[0];
      assert s[i + 1..] == tail;
      SplitJoin(parts[1..], c);
      assert parts == [parts[0]] + parts[1..];
    }
  }

  /** `s.split(c)[-1]`: the text after the last `c`, or all of `s`. */
  function LastPart(s: string, c: char): (r: string)
    ensures c !in r
    ensures |r| <= |s| && r == s[|s| - |r|..]
    ensures c !in s ==> r == s
    ensures c in s ==> |r| < |s| && s[|s| - |r| - 1] == c
  {
    var parts := Split(s, c);
    LastOfJoin(parts, c);
    if c !in s then
      assert parts == [s];
      parts[|parts| - 1]
    else
      assert |parts| >= 2 by { CountPositive(s, c); }
      parts[|parts| - 1]
  }

  lemma CountPositive(s: string, c: char)
    requires c in s
    ensures Count(s, c) >= 1
  {
    if s[0] != c {
      assert c in s[1..];
      CountPositive(s[1..], c);
    }
  }

  lemma {:induction false} LastOfJoin(parts: seq<string>, c: char)
    requires |parts| >= 1
    ensures var s := Join(parts, c); var r := parts[|parts| - 1];
      |r| <= |s| && s[|s| - |r|..] == r
      && (|parts| >= 2 ==> |r| < |s| && s[|s| - |r| - 1] == c)
  {
    if |parts| >= 2 {
      LastOfJoin(parts[1..], c);
      var tail := Join(parts[1..], c);
      var r := parts[|parts| - 1];
      assert parts[1..][|parts[1..]| - 1] == r;
      var s := Join(parts, c);
      assert s == (parts[0] + [c]) + tail;
      assert s[|s| - |tail|..] == tail;
      if |parts| == 2 {
        assert tail == r;
        assert s[|s| - |r| - 1] == c;
      }
    }
  }

  /* -------------------------------------------------------------- split() */

  /** `s` with every whitespace character removed. */
  function Squeeze(s: string): string {
    if s == [] then [] else (if IsSpace(s[0]) then [] else [s[0]]) + Squeeze(s[1..])
  }

  lemma SqueezeAppend(a: string, b: string)
    ensures Squeeze(a + b) == Squeeze(a) + Squeeze(b)
  {
    if a == [] {
      assert a + b == b;
    } else {
      assert (a + b)[0] == a[0];
      assert (a + b)[1..] == a[1..] + b;
      SqueezeAppend(a[1..], b);
    }
  }

  lemma SqueezeAllSpace(s: string)
    requires forall k :: 0 <= k < |s| ==> IsSpace(s[k])
    ensures Squeeze(s) == []
  {
  }

  lemma SqueezeNoSpace(s: string)
    requires NoSpace(s)
    ensures Squeeze(s) == s
  {
    if s != [] {
      SqueezeNoSpace(s[1..]);
    }
  }

  function Concat(ws: seq<string>): string {
    if ws == [] then [] else ws[0] + Concat(ws[1..])
  }

  /** Length of the run of non-whitespace characters at the front of `t`. */
  function WordLength(t: string): (n: nat)
    ensures n <= |t| && NoSpace(t[..n])
    ensures n < |t| ==> IsSpace(t[n])
  {
    if t == [] || IsSpace(t[0]) then 0
    else
      var n := 1 + WordLength(t[1..]);
      assert t[..n] == [t[0]] + t[1..][..n - 1];
      n
  }

  /** `s.split()`: the maximal runs of non-whitespace characters, in order.
      Each token is non-empty and space-free, and together they are exactly
      the non-whitespace characters of `s`. */
  function Words(s: string): (ws: seq<string>)
    ensures forall k :: 0 <= k < |ws| ==> ws[k] != [] && NoSpace(ws[k])
    ensures Concat(ws) == Squeeze(s)
    decreases |s|
  {
    var t := TrimLeft(s);
    SqueezeTrimLeft(s);
    if t == [] then
      []
    else
      var n := WordLength(t);
      var rest := Words(t[n..]);
      SqueezeWord(t, n, rest);
      [t[..n]] + rest
  }

  lemma SqueezeTrimLeft(s: string)
    ensures Squeeze(TrimLeft(s)) == Squeeze(s)
  {
    var t := TrimLeft(s);
    assert s == s[..|s| - |t|] + t;
    SqueezeAppend(s[..|s| - |t|], t);
    SqueezeAllSpace(s[..|s| - |t|]);
  }

  lemma SqueezeWord(t: string, n: nat, rest: seq<string>)
    requires n <= |t| && NoSpace(t[..n])
    requires Concat(rest) == Squeeze(t[n..])
    ensures Concat([t[..n]] + rest) == Squeeze(t)
  {
    assert t == t[..n] + t[n..];
    SqueezeAppend(t[..n], t[n..]);
    SqueezeNoSpace(t[..n]);
    assert ([t[..n]] + rest)[1..] == rest;
  }

  /** Leading whitespace does not change the tokens. */
  lemma {:induction false} WordsSpaceFront(sp: string, s: string)
    requires forall k :: 0 <= k < |sp| ==> IsSpace(sp[k])
    ensures Words(sp + s) == Words(s)
  {
    var t := TrimLeft(s);
    var lead := s[..|s| - |t|];
    assert s == lead + t;
    assert sp + s == (sp + lead) + t;
    TrimLeftSpaces(sp + lead, t);
  }

  lemma {:induction false} WordLengthOf(t: string, s: string)
    requires NoSpace(t)
    requires s == [] || IsSpace(s[0])
    ensures WordLength(t + s) == |t|
  {
    if t == [] {
      assert t + s == s;
    } else {
      assert (t + s)[0] == t[0];
      assert (t + s)[1..] == t[1..] + s;
      WordLengthOf(t[1..], s);
    }
  }

  /** A token followed by whitespace (or by nothing) is split off whole. */
  lemma {:induction false} WordsCons(t: string, s: string)
    requires t != [] && NoSpace(t)
    requires s == [] || IsSpace(s[0])
    ensures Words(t + s) == [t] + Words(s)
  {
    assert (t + s)[0] == t[0];
    TrimLeftSpaces([], t + s);
    assert [] + (t + s) == t + s;
    WordLengthOf(t, s);
    assert (t + s)[..|t|] == t && (t + s)[|t|..] == s;
  }

  /** A single token is its own split. */
  lemma {:induction false} WordsSingle(t: string)
    requires t != [] && NoSpace(t)
    ensures Words(t) == [t]
  {
    var e: string := [];
    assert t + e == t;
    WordsEmpty();
    WordsCons(t, e);
  }

  /** `' '.join(ts)`. */
  function Unwords(ts: seq<string>): string {
    if ts == [] then []
    else if |ts| == 1 then ts[0]
    else ts[0] + " " + Unwords(ts[1..])
  }

  /** `split()` undoes `' '.join` of non-empty, space-free tokens. */
  lemma {:induction false} WordsUnwords(ts: seq<string>)
    requires forall k :: 0 <= k < |ts| ==> ts[k] != [] && NoSpace(ts[k])
    ensures Words(Unwords(ts)) == ts
  {
    if ts == [] {
      WordsEmpty();
    } else if |ts| == 1 {
      assert Unwords(ts) == ts[0];
      WordsSingle(ts[0]);
    } else {
      var rest := Unwords(ts[1..]);
      assert Unwords(ts) == ts[0] + " " + rest;
      WordsUnwords(ts[1..]);
      WordsSpaced(ts[0], rest);
      assert ts == [ts[0]] + ts[1..];
    }
  }

  lemma WordsEmpty()
    ensures Words([]) == []
  {
  }

  lemma {:induction false} WordsSpaced(t: string, rest: string)
    requires t != [] && NoSpace(t)
    ensures Words(t + " " + rest) == [t] + Words(rest)
  {
    var tail := " " + rest;
    assert tail[0] == ' ';
    assert t + " " + rest == t + tail;
    WordsCons(t, tail);
    WordsSpaceFront(" ", rest);
  }

  /* ------------------------------------------------------------- str(int) */

  function DigitChar(d: int): char
    requires 0 <= d < 10
  {
    "0123456789"[d]
  }

  function Digits(n: nat): (r: string)
    ensures |r| >= 1
    ensures forall k :: 0 <= k < |r| ==> '0' <= r[k] <= '9'
  {
    if n < 10 then [DigitChar(n)] else Digits(n / 10) + [DigitChar(n % 10)]
  }

  /** `str(i)` for a Python `int`: optional minus sign, then decimal digits. */
  function ShowInt(i: int): (r: string)
    ensures '.' !in r
  {
    var r := if i < 0 then "-" + Digits(-i) else Digits(i);
    assert forall k :: 0 <= k < |r| ==> r[k] != '.';
    r
  }
}
