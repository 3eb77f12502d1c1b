/** Partitioning extracted points by an external segmentation
    (parse_image/segment_operations.py): segment k collects, in input order,
    the points whose voxel the segmentation labels k; label 0 is background. */
module SegmentOperations {
  import opened Lists
  import opened Volumes

  /** The number of buckets `split_points_to_segments` builds:
      `range(1, max(np.unique(segments)) + 1)` is empty unless the largest
      label is positive. */
  function BucketCount(segments: Volume<int>): (n: nat)
    requires Cells(segments) != []
    ensures n == 0 <==> forall p :: InBounds(segments, p) ==> At(segments, p) <= 0
    ensures forall p :: InBounds(segments, p) && At(segments, p) >= 0 ==> At(segments, p) <= n
    ensures n > 0 ==> exists p :: InBounds(segments, p) && At(segments, p) == n
  {
    var m := MaxValue(segments);
    if m > 0 then m else 0
  }

  /** The buckets for labels 1..n: bucket k - 1 holds the points labelled k. */
  function Partition(segments: Volume<int>, points: seq<Point>, n: nat): (r: seq<seq<Point>>)
    requires forall p :: p in points ==> InBounds(segments, p)
    ensures |r| == n
  {
    if n == 0 then [] else Partition(segments, points, n - 1) + [Where(segments, points, n)]
  }

  /** Bucket i of `Partition` is the list of points labelled i + 1. */
  lemma {:induction false} PartitionAt(segments: Volume<int>, points: seq<Point>, n: nat, i: nat)
    requires forall p :: p in points ==> InBounds(segments, p)
    requires i < n
    ensures Partition(segments, points, n)[i] == Where(segments, points, i + 1)
  {
    if i < n - 1 {
      PartitionAt(segments, points, n - 1, i);
    }
  }

  /** `split_points_to_segments`: one bucket per segment label 1..max, each
      the points of that segment in input order (repeats kept); points of
      the background (or of a negative label) land nowhere. */
  method SplitPointsToSegments(segments: Volume<int>, points: seq<Point>)
    returns (pointsInSegments: seq<seq<Point>>)
    requires Cells(segments) != []
    requires forall p :: p in points ==> InBounds(segments, p)
    ensures pointsInSegments == Partition(segments, points, BucketCount(segments))
  {
    var noSegments := MaxValue(segments);
    pointsInSegments := [];
    var i := 1;
    while i <= noSegments
      invariant 1 <= i <= BucketCount(segments) + 1
      invariant pointsInSegments == Partition(segments, points, i - 1)
    {
      var singleSeg: seq<Point> := [];
      for j := 0 to |points|
        invariant singleSeg == Where(segments, points[..j], i)
      {
        WherePrefixStep(segments, points, j, i);
        if At(segments, points[j]) == i {
          singleSeg := singleSeg + [points[j]];
        }
      }
      assert points[..|points|] == points;
      pointsInSegments := pointsInSegments + [singleSeg];
      i := i + 1;
    }
    assert i - 1 == BucketCount(segments);
  }

  /** What the buckets of `split_points_to_segments` hold: as many buckets
      as the largest label, each exactly the points carrying its label, and
      no point lost when no label is negative. */
  lemma PartitionMeaning(segments: Volume<int>, points: seq<Point>)
    requires Cells(segments) != []
    requires forall p :: p in points ==> InBounds(segments, p)
    ensures Partition(segments, points, BucketCount(segments)) == [] <==>
      forall p :: InBounds(segments, p) ==> At(segments, p) <= 0
    ensures forall i, p :: 0 <= i < BucketCount(segments) ==>
      (p in Partition(segments, points, BucketCount(segments))[i] <==> p in points && At(segments, p) == i + 1)
    ensures (forall p :: p in points ==> At(segments, p) >= 0) ==>
      SumOfLengths(Partition(segments, points, BucketCount(segments))) + |Where(segments, points, 0)| == |points|
  {
    var n := BucketCount(segments);
    forall i | 0 <= i < n
      ensures Partition(segments, points, n)[i] == Where(segments, points, i + 1)
    {
      PartitionAt(segments, points, n, i);
    }
    if forall p :: p in points ==> At(segments, p) >= 0 {
      PartitionConserves(segments, points, n);
    }
  }

  /** Appending one point to the input appends it to the matching bucket. */
  lemma WhereSnoc(v: Volume<int>, ps: seq<Point>, q: Point, k: int)
    requires forall p :: p in ps ==> InBounds(v, p)
    requires InBounds(v, q)
    ensures forall p :: p in ps + [q] ==> InBounds(v, p)
    ensures Where(v, ps + [q], k) == Where(v, ps, k) + (if At(v, q) == k then [q] else [])
  {
    assert (ps + [q])[..|ps|] == ps;
  }

  /** One more step of the bucket loop over `points`. */
  lemma WherePrefixStep(v: Volume<int>, ps: seq<Point>, j: int, k: int)
    requires forall p :: p in ps ==> InBounds(v, p)
    requires 0 <= j < |ps|
    ensures forall p :: p in ps[..j + 1] ==> InBounds(v, p)
    ensures forall p :: p in ps[..j] ==> InBounds(v, p)
    ensures Where(v, ps[..j + 1], k) == Where(v, ps[..j], k) + (if At(v, ps[j]) == k then [ps[j]] else [])
  {
    assert forall p :: p in ps[..j + 1] ==> p in ps;
    assert ps[..j + 1][..j] == ps[..j];
  }

  lemma SumOfLengthsSnoc<T>(ss: seq<seq<T>>, s: seq<T>)
    ensures SumOfLengths(ss + [s]) == SumOfLengths(ss) + |s|
  {
    assert (ss + [s])[..|ss|] == ss;
  }

  /** Appending one point to the input grows the buckets' total by one
      exactly when the point's label is one of 1..n. */
  lemma {:induction false} PartitionSnoc(segments: Volume<int>, ps: seq<Point>, q: Point, n: nat)
    requires forall p :: p in ps ==> InBounds(segments, p)
    requires InBounds(segments, q)
    ensures forall p :: p in ps + [q] ==> InBounds(segments, p)
    ensures SumOfLengths(Partition(segments, ps + [q], n)) ==
      SumOfLengths(Partition(segments, ps, n)) + (if 1 <= At(segments, q) <= n then 1 else 0)
  {
    assert forall p :: p in ps + [q] ==> InBounds(segments, p);
    if n > 0 {
      PartitionSnoc(segments, ps, q, n - 1);
      PartitionSnocStep(segments, ps, q, n);
    } else {
      assert Partition(segments, ps + [q], n) == [] && Partition(segments, ps, n) == [];
    }
  }

  /** The inductive step of `PartitionSnoc`: bucket n grows by one exactly
      when the new point is labelled n. */
  lemma PartitionSnocStep(segments: Volume<int>, ps: seq<Point>, q: Point, n: nat)
    requires forall p :: p in ps + [q] ==> InBounds(segments, p)
    requires forall p :: p in ps ==> InBounds(segments, p)
    requires InBounds(segments, q)
    requires n > 0
    requires SumOfLengths(Partition(segments, ps + [q], n - 1)) ==
      SumOfLengths(Partition(segments, ps, n - 1)) + (if 1 <= At(segments, q) <= n - 1 then 1 else 0)
    ensures SumOfLengths(Partition(segments, ps + [q], n)) ==
      SumOfLengths(Partition(segments, ps, n)) + (if 1 <= At(segments, q) <= n then 1 else 0)
  {
    var longer := ps + [q];
    var grown, plain := Where(segments, longer, n), Where(segments, ps, n);
    WhereSnoc(segments, ps, q, n);
    var before, beforePlain := Partition(segments, longer, n - 1), Partition(segments, ps, n - 1);
    assert Partition(segments, longer, n) == before + [grown];
    assert Partition(segments, ps, n) == beforePlain + [plain];
    SumOfLengthsSnoc(before, grown);
    SumOfLengthsSnoc(beforePlain, plain);
  }

  /** Every bucket of an empty input is empty. */
  lemma {:induction false} PartitionOfNothing(segments: Volume<int>, n: nat)
    ensures SumOfLengths(Partition(segments, [], n)) == 0
  {
    if n > 0 {
      PartitionOfNothing(segments, n - 1);
      SumOfLengthsSnoc(Partition(segments, [], n - 1), Where(segments, [], n));
    }
  }

  /** Nothing is lost or doubled: when every label is one of 0..n, the bucket
      sizes plus the background points add up to the number of points. */
  lemma {:induction false} PartitionConserves(segments: Volume<int>, points: seq<Point>, n: nat)
    requires forall p :: p in points ==> InBounds(segments, p) && 0 <= At(segments, p) <= n
    ensures SumOfLengths(Partition(segments, points, n)) + |Where(segments, points, 0)| == |points|
  {
    if points == [] {
      PartitionOfNothing(segments, n);
    } else {
      var m := |points| - 1;
      var ps, q := points[..m], points[m];
      assert points == ps + [q];
      assert forall p :: p in ps ==> p in points;
      PartitionConserves(segments, ps, n);
      PartitionSnoc(segments, ps, q, n);
      WhereSnoc(segments, ps, q, 0);
    }
  }

  /** A point lies in at most one bucket. */
  lemma BucketsDisjoint(segments: Volume<int>, points: seq<Point>, n: nat, i: int, j: int, p: Point)
    requires forall q :: q in points ==> InBounds(segments, q)
    requires 0 <= i < n && 0 <= j < n
    requires p in Partition(segments, points, n)[i] && p in Partition(segments, points, n)[j]
    ensures i == j
  {
    PartitionAt(segments, points, n, i);
    PartitionAt(segments, points, n, j);
  }

  /** `number_of_points_in_segment`: segment number k (1-based) to the size
      of bucket k - 1. */
  method NumberOfPointsInSegment<T>(segmentedPoints: seq<seq<T>>) returns (segDict: map<int, int>)
    ensures forall k :: k in segDict <==> 1 <= k <= |segmentedPoints|
    ensures forall k :: k in segDict ==> segDict[k] == |segmentedPoints[k - 1]|
  {
    segDict := map[];
    for i := 0 to |segmentedPoints|
      invariant forall k :: k in segDict <==> 1 <= k <= i
      invariant forall k :: k in segDict ==> segDict[k] == |segmentedPoints[k - 1]|
    {
      segDict := segDict[i + 1 := |segmentedPoints[i]|];
    }
  }
}
