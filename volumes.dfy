/** Three-dimensional volumes as the analysis sees them: nested lists indexed
    v[x][y][z] once the loaders have swapped the stored (z, y, x) axes. A
    brightness image is a Volume<int>, a mask a Volume<bool>, a component
    labelling or a segmentation a Volume<int>. */
module Volumes {

  /** A voxel index (x, y, z). */
  datatype Point = Point(x: int, y: int, z: int)

  type Volume<T> = seq<seq<seq<T>>>

  predicate InBounds<T>(v: Volume<T>, p: Point)
  {
    0 <= p.x < |v| && 0 <= p.y < |v[p.x]| && 0 <= p.z < |v[p.x][p.y]|
  }

  /** The voxel value v[p.x][p.y][p.z]. */
  function At<T>(v: Volume<T>, p: Point): T
    requires InBounds(v, p)
  {
    v[p.x][p.y][p.z]
  }

  /** Two volumes have the same extent along every axis. */
  predicate SameShape<A, B>(a: Volume<A>, b: Volume<B>)
  {
    |a| == |b| &&
    (forall x :: 0 <= x < |a| ==> |a[x]| == |b[x]|) &&
    (forall x, y :: 0 <= x < |a| && 0 <= y < |a[x]| ==> |a[x][y]| == |b[x][y]|)
  }

  lemma SameShapeInBounds<A, B>(a: Volume<A>, b: Volume<B>, p: Point)
    requires SameShape(a, b)
    ensures InBounds(a, p) <==> InBounds(b, p)
  {
  }

  /** C (row-major) order of voxels: the order in which numpy's `nonzero`
      lists indices. */
  predicate Before(p: Point, q: Point)
  {
    p.x < q.x || (p.x == q.x && (p.y < q.y || (p.y == q.y && p.z < q.z)))
  }

  predicate Ascending(ps: seq<Point>)
  {
    forall i, j :: 0 <= i < j < |ps| ==> Before(ps[i], ps[j])
  }

  /** In an ascending list, position follows C order. */
  lemma AscendingIndex(ps: seq<Point>, i: int, j: int)
    requires Ascending(ps)
    requires 0 <= i < |ps| && 0 <= j < |ps|
    requires Before(ps[i], ps[j])
    ensures i < j
  {
  }

  /** The voxels (x, y, 0), ..., (x, y, n - 1). */
  function RowCells(x: int, y: int, n: nat): (r: seq<Point>)
    ensures |r| == n
    ensures forall z :: 0 <= z < n ==> r[z] == Point(x, y, z)
  {
    seq(n, z => Point(x, y, z))
  }

  /** The voxels of plane `plane` at index x, in C order. */
  function PlaneCells<T>(x: int, plane: seq<seq<T>>): (r: seq<Point>)
    ensures forall p :: p in r <==> p.x == x && 0 <= p.y < |plane| && 0 <= p.z < |plane[p.y]|
  {
    if plane == [] then []
    else
      var n := |plane| - 1;
      assert forall y :: 0 <= y < n ==> plane[..n][y] == plane[y];
      PlaneCells(x, plane[..n]) + RowCells(x, n, |plane[n]|)
  }

  /** Every voxel of v, in C order. */
  function Cells<T>(v: Volume<T>): (r: seq<Point>)
    ensures forall p :: p in r <==> InBounds(v, p)
  {
    if v == [] then []
    else
      var n := |v| - 1;
      assert forall x :: 0 <= x < n ==> v[..n][x] == v[x];
      Cells(v[..n]) + PlaneCells(n, v[n])
  }

  /** Concatenating two ascending lists, every point of the first before every
      point of the second, gives an ascending list. */
  lemma AscendingConcat(a: seq<Point>, b: seq<Point>)
    requires Ascending(a) && Ascending(b)
    requires forall p, q :: p in a && q in b ==> Before(p, q)
    ensures Ascending(a + b)
  {
    forall i, j | 0 <= i < j < |a + b| ensures Before((a + b)[i], (a + b)[j]) {
      if j < |a| {
      } else if i >= |a| {
        assert (a + b)[i] == b[i - |a|] && (a + b)[j] == b[j - |a|];
      } else {
        assert (a + b)[i] in a && (a + b)[j] in b;
      }
    }
  }

  lemma {:induction false} PlaneCellsAscending<T>(x: int, plane: seq<seq<T>>)
    ensures Ascending(PlaneCells(x, plane))
  {
    if plane != [] {
      var n := |plane| - 1;
      PlaneCellsAscending(x, plane[..n]);
      var row := RowCells(x, n, |plane[n]|);
      forall p, q | p in PlaneCells(x, plane[..n]) && q in row ensures Before(p, q) {
      }
      AscendingConcat(PlaneCells(x, plane[..n]), row);
    }
  }

  /** `Cells` lists the voxels in strictly increasing C order. */
  lemma {:induction false} CellsAscending<T>(v: Volume<T>)
    ensures Ascending(Cells(v))
  {
    if v != [] {
      var n := |v| - 1;
      CellsAscending(v[..n]);
      PlaneCellsAscending(n, v[n]);
      forall p, q | p in Cells(v[..n]) && q in PlaneCells(n, v[n]) ensures Before(p, q) {
      }
      AscendingConcat(Cells(v[..n]), PlaneCells(n, v[n]));
    }
  }

  /** The points of ps whose value in v is k, in their order in ps, repeats
      kept. Over Cells(v) this is numpy's `nonzero(v == k)`. */
  function Where(v: Volume<int>, ps: seq<Point>, k: int): (r: seq<Point>)
    requires forall p :: p in ps ==> InBounds(v, p)
    ensures forall p :: p in r <==> p in ps && At(v, p) == k
  {
    if ps == [] then []
    else
      var n := |ps| - 1;
      assert forall p :: p in ps[..n] ==> p in ps;
      assert forall p :: p in ps <==> p in ps[..n] || p == ps[n];
      Where(v, ps[..n], k) + (if At(v, ps[n]) == k then [ps[n]] else [])
  }

  /** `Where` keeps every copy of a matching point and no copy of another. */
  lemma {:induction false} WhereCounts(v: Volume<int>, ps: seq<Point>, k: int, p: Point)
    requires forall q :: q in ps ==> InBounds(v, q)
    requires InBounds(v, p)
    ensures multiset(Where(v, ps, k))[p] == if At(v, p) == k then multiset(ps)[p] else 0
  {
    if ps != [] {
      var n := |ps| - 1;
      assert forall q :: q in ps[..n] ==> q in ps;
      WhereCounts(v, ps[..n], k, p);
      assert ps == ps[..n] + [ps[n]];
      var tail := if At(v, ps[n]) == k then [ps[n]] else [];
      assert multiset(ps) == multiset(ps[..n]) + multiset{ps[n]};
      assert multiset(Where(v, ps, k)) == multiset(Where(v, ps[..n], k)) + multiset(tail);
    }
  }

  /** `Where` distributes over concatenation, so it keeps the input order. */
  lemma {:induction false} WhereConcat(v: Volume<int>, a: seq<Point>, b: seq<Point>, k: int)
    requires forall q :: q in a + b ==> InBounds(v, q)
    ensures Where(v, a + b, k) == Where(v, a, k) + Where(v, b, k)
  {
    if b != [] {
      var n := |b| - 1;
      assert (a + b)[..|a + b| - 1] == a + b[..n];
      WhereConcat(v, a, b[..n], k);
    } else {
      assert a + b == a;
    }
  }

  /** The sublist `Where` picks out of an ascending list is ascending. */
  lemma {:induction false} WhereAscending(v: Volume<int>, ps: seq<Point>, k: int)
    requires forall q :: q in ps ==> InBounds(v, q)
    requires Ascending(ps)
    ensures Ascending(Where(v, ps, k))
  {
    if ps != [] {
      var n := |ps| - 1;
      assert forall q :: q in ps[..n] ==> q in ps;
      WhereAscending(v, ps[..n], k);
      var tail := if At(v, ps[n]) == k then [ps[n]] else [];
      forall p, q | p in Where(v, ps[..n], k) && q in tail ensures Before(p, q) {
        var i :| 0 <= i < n && ps[..n][i] == p;
      }
      AscendingConcat(Where(v, ps[..n], k), tail);
    }
  }

  /** Largest value of v over the points ps. */
  function MaxOver(v: Volume<int>, ps: seq<Point>): (m: int)
    requires |ps| > 0 && forall p :: p in ps ==> InBounds(v, p)
    ensures exists i :: 0 <= i < |ps| && At(v, ps[i]) == m
    ensures forall i :: 0 <= i < |ps| ==> At(v, ps[i]) <= m
  {
    var n := |ps| - 1;
    if n == 0 then At(v, ps[0])
    else
      assert forall p :: p in ps[..n] ==> p in ps;
      var m := MaxOver(v, ps[..n]);
      assert forall i :: 0 <= i < n ==> ps[..n][i] == ps[i];
      if At(v, ps[n]) > m then At(v, ps[n]) else m
  }

  /** The largest value in a non-empty volume: `max(np.unique(v))`. */
  function MaxValue(v: Volume<int>): (m: int)
    requires Cells(v) != []
    ensures exists p :: InBounds(v, p) && At(v, p) == m
    ensures forall p :: InBounds(v, p) ==> At(v, p) <= m
  {
    var cells := Cells(v);
    var m := MaxOver(v, cells);
    assert forall p :: InBounds(v, p) ==> p in cells;
    m
  }
}
