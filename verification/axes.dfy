/**
  The NumPy array operations the re-indexer is built from, over exact reals:
  `np.unique`, `np.diff`, `min`/`max`, `np.arange`, slicing, `np.floor` /
  `np.ceil` and float `%`. Coordinates are `real`, so stepping is exact.
 */
module Axes {
  import opened Results

  /* ------------------------------------------------------------ rounding */

  /** `np.floor` followed by `int(...)`. */
  function Floor(x: real): (n: int)
    ensures n as real <= x < n as real + 1.0
  {
    x.Floor
  }

  /** `np.ceil` followed by `int(...)`. */
  function Ceil(x: real): (n: int)
    ensures x <= n as real < x + 1.0
  {
    -((-x).Floor)
  }

  /** `ceil(x / w)` cells of width `w > 0` are the fewest that cover `x`. */
  lemma CeilCovers(x: real, w: real)
    requires w > 0.0
    ensures Ceil(x / w) as real * w >= x && (Ceil(x / w) - 1) as real * w < x
  {
    var q := x / w;
    var n := Ceil(q);
    var below := (n - 1) as real;
    assert q * w == x;
    MulLess(below, q, w);
    assert below * w < x;
    if n as real > q {
      MulLess(q, n as real, w);
    }
  }

  lemma MulLess(a: real, b: real, w: real)
    requires a < b && w > 0.0
    ensures a * w < b * w
  {
  }

  /** Python's float `%`: `x - a * floor(x / a)`, with the sign of `a`. */
  function PyMod(x: real, a: real): real
    requires a != 0.0
  {
    x - a * Floor(x / a) as real
  }

  /** `k` whole steps of `a`. */
  function Times(k: int, a: real): real {
    k as real * a
  }

  /** `PyMod(x, a) == 0` exactly when `x` is a whole multiple of `a`. */
  lemma PyModZero(x: real, a: real)
    requires a != 0.0
    ensures PyMod(x, a) == 0.0 <==> exists k: int :: x == Times(k, a)
  {
    if PyMod(x, a) == 0.0 {
      assert x == Times(Floor(x / a), a);
    }
    if exists k: int :: x == Times(k, a) {
      var k: int :| x == Times(k, a);
      assert x / a == k as real;
      assert Floor(x / a) == k;
      assert a * Floor(x / a) as real == Times(k, a);
    }
  }

  /* ------------------------------------------------------- sorted values */

  /** Strictly increasing: sorted and free of duplicates. */
  predicate Increasing(s: seq<real>) {
    forall i, j :: 0 <= i < j < |s| ==> s[i] < s[j]
  }

  /** Inserts `x` into an increasing sequence, unless it is already there. */
  function Insert(x: real, s: seq<real>): (r: seq<real>)
    requires Increasing(s)
    ensures Increasing(r)
    ensures forall y :: y in r <==> y == x || y in s
    ensures |r| <= |s| + 1
  {
    if s == [] then [x]
    else if x < s[0] then [x] + s
    else if x == s[0] then s
    else
      var t := Insert(x, s[1..]);
      assert forall y :: y in t ==> s[0] < y;
      InsertAfter(s[0], t);
      [s[0]] + t
  }

  lemma InsertAfter(x: real, t: seq<real>)
    requires Increasing(t) && forall y :: y in t ==> x < y
    ensures Increasing([x] + t)
  {
    var r := [x] + t;
    forall i, j | 0 <= i < j < |r| ensures r[i] < r[j] {
      assert r[j] == t[j - 1] && t[j - 1] in t;
      if i > 0 {
        assert r[i] == t[i - 1];
      }
    }
  }

  /** `np.unique`: the distinct values, in increasing order. */
  function Unique(s: seq<real>): (u: seq<real>)
    ensures Increasing(u)
    ensures forall y :: y in u <==> y in s
    ensures |u| <= |s|
  {
    if s == [] then [] else Insert(s[0], Unique(s[1..]))
  }

  /** Two increasing sequences with the same elements are equal. */
  lemma {:induction false} IncreasingSameElements(a: seq<real>, b: seq<real>)
    requires Increasing(a) && Increasing(b)
    requires forall y :: y in a <==> y in b
    ensures a == b
  {
    assert a == [] <==> b == [] by {
      if a != [] { assert a[0] in a; }
      if b != [] { assert b[0] in b; }
    }
    if a != [] {
      assert a[0] in a && b[0] in b;
      assert a[0] == b[0] by {
        assert a[0] in b && b[0] in a;
      }
      forall y ensures y in a[1..] <==> y in b[1..] {
        if y in a[1..] {
          assert y in b && y != b[0];
        }
        if y in b[1..] {
          assert y in a && y != a[0];
        }
      }
      IncreasingSameElements(a[1..], b[1..]);
      assert a == [a[0]] + a[1..] && b == [b[0]] + b[1..];
    }
  }

  /** `np.unique` leaves a sequence that is already increasing unchanged. */
  lemma UniqueOfIncreasing(s: seq<real>)
    requires Increasing(s)
    ensures Unique(s) == s
  {
    IncreasingSameElements(Unique(s), s);
  }

  /** The smallest element (`np.min`). */
  function Min(s: seq<real>): (m: real)
    requires |s| > 0
    ensures m in s
    ensures forall k :: 0 <= k < |s| ==> m <= s[k]
  {
    if |s| == 1 then s[0]
    else
      var m := Min(s[1..]);
      assert forall k :: 1 <= k < |s| ==> s[k] == s[1..][k - 1];
      if s[0] <= m then s[0] else m
  }

  /** The largest element (`np.max`). */
  function Max(s: seq<real>): (m: real)
    requires |s| > 0
    ensures m in s
    ensures forall k :: 0 <= k < |s| ==> s[k] <= m
  {
    if |s| == 1 then s[0]
    else
      var m := Max(s[1..]);
      assert forall k :: 1 <= k < |s| ==> s[k] == s[1..][k - 1];
      if s[0] >= m then s[0] else m
  }

  /** `np.diff`: differences of neighbours. */
  function Diffs(s: seq<real>): (d: seq<real>)
    ensures |d| == if |s| == 0 then 0 else |s| - 1
    ensures forall k :: 0 <= k < |d| ==> d[k] == s[k + 1] - s[k]
  {
    if |s| <= 1 then [] else seq(|s| - 1, k requires 0 <= k < |s| - 1 => s[k + 1] - s[k])
  }

  /** `np.min(np.diff(u))` for the sorted distinct values `u`: the pitch of
      the grid they sit on. It fails (`min` of an empty array) unless there
      are two values; it is positive, no neighbours are closer, and some are
      exactly that close. */
  function MinGap(u: seq<real>): (r: Result<real>)
    requires Increasing(u)
    ensures r.Ok? <==> |u| >= 2
    ensures r.Err? ==> r.error == BadValue
    ensures r.Ok? ==> r.value > 0.0
    ensures r.Ok? ==> forall k :: 0 <= k < |u| - 1 ==> u[k + 1] - u[k] >= r.value
    ensures r.Ok? ==> exists k :: 0 <= k < |u| - 1 && u[k + 1] - u[k] == r.value
  {
    if |u| < 2 then Err(BadValue)
    else
      var d := Diffs(u);
      var m := Min(d);
      assert exists k :: 0 <= k < |u| - 1 && u[k + 1] - u[k] == m by {
        var k :| 0 <= k < |d| && d[k] == m;
        assert u[k + 1] - u[k] == m;
      }
      Ok(m)
  }

  /** Neighbours at least `g` apart keep every two elements at least `g` apart. */
  lemma {:induction false} SpreadApart(u: seq<real>, g: real, i: nat, j: nat)
    requires Increasing(u) && g > 0.0
    requires forall k :: 0 <= k < |u| - 1 ==> u[k + 1] - u[k] >= g
    requires i < j < |u|
    ensures u[j] - u[i] >= g
  {
    if j > i + 1 {
      SpreadApart(u, g, i, j - 1);
      assert u[j] - u[j - 1] >= g;
    }
  }

  /* -------------------------------------------------------------- arange */

  /** `n` values from `start` in steps of `step`. */
  function Steps(start: real, step: real, n: nat): (s: seq<real>)
    ensures |s| == n
    ensures forall k :: 0 <= k < n ==> s[k] == start + k as real * step
  {
    seq(n, k requires 0 <= k < n => start + k as real * step)
  }

  /** `np.arange(start, stop, step)`: `start + k * step` for every `k >= 0`
      that stays strictly on the near side of `stop`. A zero step fails. */
  function Arange(start: real, stop: real, step: real): (r: Result<seq<real>>)
    ensures r.Err? <==> step == 0.0
    ensures r.Err? ==> r.error == DivisionByZero
    ensures r.Ok? ==> forall k :: 0 <= k < |r.value| ==> r.value[k] == start + k as real * step
    ensures r.Ok? && step > 0.0 ==>
      (forall k :: 0 <= k < |r.value| ==> r.value[k] < stop) && start + |r.value| as real * step >= stop
    ensures r.Ok? && step < 0.0 ==>
      (forall k :: 0 <= k < |r.value| ==> r.value[k] > stop) && start + |r.value| as real * step <= stop
  {
    if step == 0.0 then Err(DivisionByZero)
    else
      var c := Ceil((stop - start) / step);
      var n: nat := if c < 0 then 0 else c;
      var s := Steps(start, step, n);
      ArangeBounds(start, stop, step, n, s);
      Ok(s)
  }

  lemma ArangeBounds(start: real, stop: real, step: real, n: nat, s: seq<real>)
    requires step != 0.0
    requires n == if Ceil((stop - start) / step) < 0 then 0 else Ceil((stop - start) / step)
    requires s == Steps(start, step, n)
    ensures step > 0.0 ==>
      (forall k :: 0 <= k < n ==> s[k] < stop) && start + n as real * step >= stop
    ensures step < 0.0 ==>
      (forall k :: 0 <= k < n ==> s[k] > stop) && start + n as real * step <= stop
  {
    var q := (stop - start) / step;
    assert stop - start == q * step;
    forall k | 0 <= k < n ensures (step > 0.0 ==> s[k] < stop) && (step < 0.0 ==> s[k] > stop) {
      assert k as real < q;
      if step > 0.0 {
        assert k as real * step < q * step;
      } else {
        assert k as real * step > q * step;
      }
    }
    if step > 0.0 {
      assert n as real * step >= q * step;
    } else {
      assert n as real * step <= q * step;
    }
  }

  /* ------------------------------------------------------------ slicing */

  function Reverse(s: seq<real>): (r: seq<real>)
    ensures |r| == |s|
    ensures forall k :: 0 <= k < |s| ==> r[k] == s[|s| - 1 - k]
  {
    if s == [] then [] else Reverse(s[1..]) + [s[0]]
  }

  /** Python's `s[1:]`, which is empty for an empty `s`. */
  function DropFirst(s: seq<real>): seq<real> {
    if s == [] then [] else s[1..]
  }

  /** Python's `s[:n]`: the first `n` elements, or all but the last `-n`
      when `n` is negative. */
  function TakePrefix(s: seq<real>, n: int): (r: seq<real>)
    ensures |r| <= |s| && r == s[..|r|]
    ensures n >= 0 ==> |r| == if n < |s| then n else |s|
    ensures n < 0 ==> |r| == if |s| + n > 0 then |s| + n else 0
  {
    if n >= 0 then (if n < |s| then s[..n] else s)
    else if |s| + n > 0 then s[..|s| + n]
    else []
  }

  /** A position before both the cut and the end survives the cut. */
  lemma InPrefix(s: seq<real>, n: int, at: nat)
    requires at < |s| && at < n
    ensures s[at] in TakePrefix(s, n)
  {
    assert TakePrefix(s, n)[at] == s[at];
  }
}
