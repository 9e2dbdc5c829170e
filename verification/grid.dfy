/**
  The dense target index both re-indexers build and the `reindex` that moves
  rows onto it: `pd.MultiIndex.from_product([[t0], A, B])` followed by
  `DataFrame.reindex`.
 */
module Grid {
  import opened Results

  /** A three-level index label: the time, then the two coordinate slots. */
  datatype Key<X> = Key(time: seq<int>, a: X, b: X)

  /** One row of the re-indexed frame: its label and the source row filed
      under that label, if there was one (otherwise a row of missing values). */
  datatype Cell<X, R> = Cell(key: Key<X>, row: Option<R>)

  /** No element occurs twice. */
  predicate Distinct<T(==)>(s: seq<T>) {
    forall i, j :: 0 <= i < j < |s| ==> s[i] != s[j]
  }

  /** The labels `(t, x, y)` for one `x` and every `y`, in order. */
  function Line<X>(t: seq<int>, x: X, ys: seq<X>): (r: seq<Key<X>>)
    ensures |r| == |ys|
    ensures forall j :: 0 <= j < |ys| ==> r[j] == Key(t, x, ys[j])
  {
    seq(|ys|, j requires 0 <= j < |ys| => Key(t, x, ys[j]))
  }

  /** `from_product([[t], xs, ys])`: every pair, in C order (the last level
      varies fastest), each under the time `t`. */
  function Product<X>(t: seq<int>, xs: seq<X>, ys: seq<X>): (r: seq<Key<X>>)
    ensures |r| == |xs| * |ys|
  {
    if xs == [] then [] else Line(t, xs[0], ys) + Product(t, xs[1..], ys)
  }

  /** Position `i * |ys| + j` of the product holds `(t, xs[i], ys[j])`:
      with the length above, this fixes the whole sequence. */
  lemma {:induction false} ProductAt<X>(t: seq<int>, xs: seq<X>, ys: seq<X>, i: nat, j: nat)
    requires i < |xs| && j < |ys|
    ensures i * |ys| + j < |Product(t, xs, ys)|
    ensures Product(t, xs, ys)[i * |ys| + j] == Key(t, xs[i], ys[j])
  {
    var m := |ys|;
    assert i * m + j < (i + 1) * m <= |xs| * m;
    if i > 0 {
      ProductAt(t, xs[1..], ys, i - 1, j);
      assert (i - 1) * m + j == i * m + j - m;
    }
  }

  /** The product holds exactly the labels with time `t` whose two slots come
      from the two axes. */
  lemma {:induction false} ProductMembers<X>(t: seq<int>, xs: seq<X>, ys: seq<X>, k: Key<X>)
    ensures k in Product(t, xs, ys) <==> k.time == t && k.a in xs && k.b in ys
  {
    if xs != [] {
      ProductMembers(t, xs[1..], ys, k);
      assert k in Line(t, xs[0], ys) <==> k.time == t && k.a == xs[0] && k.b in ys;
      assert k.a in xs <==> k.a == xs[0] || k.a in xs[1..];
    }
  }

  /** Axes free of duplicates give a product free of duplicates. */
  lemma {:induction false} ProductDistinct<X>(t: seq<int>, xs: seq<X>, ys: seq<X>)
    requires Distinct(xs) && Distinct(ys)
    ensures Distinct(Product(t, xs, ys))
  {
    if xs != [] {
      var line := Line(t, xs[0], ys);
      var rest := Product(t, xs[1..], ys);
      ProductDistinct(t, xs[1..], ys);
      forall k | k in rest ensures k.a != xs[0] {
        ProductMembers(t, xs[1..], ys, k);
      }
      DistinctAppend(line, rest);
    }
  }

  lemma DistinctAppend<T>(a: seq<T>, b: seq<T>)
    requires Distinct(a) && Distinct(b)
    requires forall x :: x in a ==> x !in b
    ensures Distinct(a + b)
  {
    forall i, j | 0 <= i < j < |a + b| ensures (a + b)[i] != (a + b)[j] {
      if j >= |a| && i < |a| {
        assert (a + b)[i] in a && (a + b)[j] in b;
      }
    }
  }

  /** The row filed under label `k`, if any (the first one). */
  function Find<X(==), R>(entries: seq<(Key<X>, R)>, k: Key<X>): (r: Option<R>)
    ensures r.Some? <==> exists e :: e in entries && e.0 == k
    ensures r.Some? ==> (k, r.value) in entries
  {
    if entries == [] then None
    else if entries[0].0 == k then Some(entries[0].1)
    else
      var r := Find(entries[1..], k);
      assert forall e :: e in entries[1..] ==> e in entries;
      assert forall e :: e in entries && e != entries[0] ==> e in entries[1..];
      r
  }

  function Labels<X, R>(entries: seq<(Key<X>, R)>): (ks: seq<Key<X>>)
    ensures |ks| == |entries|
    ensures forall i :: 0 <= i < |ks| ==> ks[i] == entries[i].0
  {
    seq(|entries|, i requires 0 <= i < |entries| => entries[i].0)
  }

  /**
    `DataFrame.reindex(target)`: one cell per target label, in target order,
    holding the row filed under that label or nothing. A frame whose own
    labels repeat cannot be re-indexed.
   */
  function Reindex<X(==), R>(entries: seq<(Key<X>, R)>, target: seq<Key<X>>): (r: Result<seq<Cell<X, R>>>)
    ensures r.Err? <==> !Distinct(Labels(entries))
    ensures r.Err? ==> r.error == DuplicateLabels
    ensures r.Ok? ==> |r.value| == |target|
    ensures r.Ok? ==> forall p :: 0 <= p < |target| ==> r.value[p].key == target[p]
    ensures r.Ok? ==> forall p :: 0 <= p < |target| ==>
      (r.value[p].row.Some? <==> exists e :: e in entries && e.0 == target[p])
    ensures r.Ok? ==> forall p :: 0 <= p < |target| && r.value[p].row.Some? ==>
      (target[p], r.value[p].row.value) in entries
  {
    if !Distinct(Labels(entries)) then Err(DuplicateLabels)
    else Ok(seq(|target|, p requires 0 <= p < |target| => Cell(target[p], Find(entries, target[p]))))
  }

  /** Every source row whose label is in the target survives, in the cell of
      that label; a row whose label is not in the target is dropped. */
  lemma ReindexKeeps<X, R>(entries: seq<(Key<X>, R)>, target: seq<Key<X>>, e: (Key<X>, R))
    requires Reindex(entries, target).Ok?
    requires e in entries
    ensures e.0 in target ==>
      exists p :: 0 <= p < |target| && Reindex(entries, target).value[p] == Cell(e.0, Some(e.1))
    ensures e.0 !in target ==>
      forall p :: 0 <= p < |target| ==> Reindex(entries, target).value[p].key != e.0
  {
    var cells := Reindex(entries, target).value;
    if e.0 in target {
      var p :| 0 <= p < |target| && target[p] == e.0;
      var found := cells[p].row;
      assert found.Some?;
      assert (e.0, found.value) in entries;
      var i :| 0 <= i < |entries| && entries[i] == e;
      var j :| 0 <= j < |entries| && entries[j] == (e.0, found.value);
      assert Labels(entries)[i] == Labels(entries)[j];
      assert i == j;
      assert cells[p] == Cell(e.0, Some(e.1));
    }
  }
}
