/** Multistep connected-component point extraction (parse_image/extract_points.py).

    For a brightness threshold t the image is masked (`img > t`), the mask is
    handed to a connected-component labeler, and for every label 1..N the
    brightest voxel of that region becomes a point. The multistep scan does
    this for every threshold of a half-open integer range and returns the
    union of the points without duplicates; spacing then rescales coordinates. */
module ExtractPoints {
  import opened Lists
  import opened Volumes

  // ---------------------------------------------------------------- labeler

  /** The connected-component labeler (`components`): mask and minimal region
      size in, label volume out. It is foreign code, so it is a parameter. */
  type Labeler = (Volume<bool>, int) -> Volume<int>

  /** The foreground mask `img > t`. */
  function Mask(img: Volume<int>, t: int): Volume<bool>
  {
    seq(|img|, x requires 0 <= x < |img| =>
      seq(|img[x]|, y requires 0 <= y < |img[x]| =>
        seq(|img[x][y]|, z requires 0 <= z < |img[x][y]| => img[x][y][z] > t)))
  }

  /** The mask has the image's shape and marks exactly the voxels brighter
      than t. */
  lemma MaskExact(img: Volume<int>, t: int)
    ensures SameShape(Mask(img, t), img)
    ensures forall p :: InBounds(img, p) ==> InBounds(Mask(img, t), p) && At(Mask(img, t), p) == (At(img, p) > t)
  {
  }

  /** The label volume `search` works on at threshold t. */
  function Labels(img: Volume<int>, labeler: Labeler, minSize: int, t: int): Volume<int>
  {
    labeler(Mask(img, t), minSize)
  }

  /** What `search` itself needs of a label volume: the image's shape, and no
      negative label (numpy's `bincount` refuses those). */
  ghost predicate Conforms(img: Volume<int>, c: Volume<int>)
  {
    SameShape(c, img) && forall p :: InBounds(c, p) ==> At(c, p) >= 0
  }

  /** `len(np.bincount(c.flat)) - 1`: the largest label, 0 for a volume without
      voxels or without labelled voxels. */
  function LabelCount(c: Volume<int>): (n: nat)
    requires forall p :: InBounds(c, p) ==> At(c, p) >= 0
    ensures forall p :: InBounds(c, p) ==> At(c, p) <= n
    ensures n > 0 ==> exists p :: InBounds(c, p) && At(c, p) == n
  {
    if Cells(c) == [] then 0 else MaxValue(c)
  }

  /** The voxels labelled k in C order: `np.nonzero(c == k)`. */
  function Spot(c: Volume<int>, k: int): (r: seq<Point>)
    ensures forall p :: p in r <==> InBounds(c, p) && At(c, p) == k
  {
    Where(c, Cells(c), k)
  }

  /** The contract of the relabelled connected-component output for mask m:
      same shape, background 0, labels only on foreground voxels, and the
      labels 1..N all in use (RelabelComponent renumbers consecutively). */
  ghost predicate LabelerContract(m: Volume<bool>, c: Volume<int>)
  {
    SameShape(c, m) &&
    (forall p :: InBounds(c, p) ==> At(c, p) >= 0 && (At(c, p) > 0 ==> At(m, p))) &&
    (forall k :: 1 <= k <= LabelCount(c) ==> Spot(c, k) != [])
  }

  lemma LabelerContractConforms(img: Volume<int>, t: int, c: Volume<int>)
    requires LabelerContract(Mask(img, t), c)
    ensures Conforms(img, c)
    ensures forall p :: InBounds(c, p) && At(c, p) > 0 ==> InBounds(img, p) && At(img, p) > t
  {
    MaskExact(img, t);
    forall p | InBounds(c, p) ensures InBounds(img, p) {
      SameShapeInBounds(c, Mask(img, t), p);
      SameShapeInBounds(Mask(img, t), img, p);
    }
  }

  // --------------------------------------------------------- peak selection

  /** The running maximum's brightness: 0 before any voxel has beaten it. */
  function Level(img: Volume<int>, pos: Option<Point>): int
    requires pos.Some? ==> InBounds(img, pos.value)
  {
    if pos.Some? then At(img, pos.value) else 0
  }

  /** The position `search`'s inner loop ends with after scanning `spot`:
      None is the empty tuple `()` it keeps when no voxel is brighter than 0. */
  function PeakOf(img: Volume<int>, spot: seq<Point>): (r: Option<Point>)
    requires forall p :: p in spot ==> InBounds(img, p)
    ensures r.Some? ==> r.value in spot
  {
    if spot == [] then None
    else
      var n := |spot| - 1;
      assert forall p :: p in spot[..n] ==> p in spot;
      var best := PeakOf(img, spot[..n]);
      if At(img, spot[n]) > Level(img, best) then Some(spot[n]) else best
  }

  /** spot[j] is a brightest voxel of spot, brighter than 0, and no voxel
      before it is as bright. */
  predicate FirstMaximum(img: Volume<int>, spot: seq<Point>, j: int)
    requires forall p :: p in spot ==> InBounds(img, p)
  {
    0 <= j < |spot| && At(img, spot[j]) > 0 &&
    (forall i :: 0 <= i < j ==> At(img, spot[i]) < At(img, spot[j])) &&
    (forall i :: j <= i < |spot| ==> At(img, spot[i]) <= At(img, spot[j]))
  }

  /** The strict `>` against a running maximum that starts at 0 selects the
      first brightest voxel, and nothing when no voxel is brighter than 0. */
  lemma {:induction false} PeakOfIsFirstMaximum(img: Volume<int>, spot: seq<Point>)
    requires forall p :: p in spot ==> InBounds(img, p)
    ensures PeakOf(img, spot) == None <==> forall i :: 0 <= i < |spot| ==> At(img, spot[i]) <= 0
    ensures PeakOf(img, spot).Some? ==>
      exists j :: FirstMaximum(img, spot, j) && spot[j] == PeakOf(img, spot).value
  {
    if spot != [] {
      var n := |spot| - 1;
      var prefix := spot[..n];
      assert forall p :: p in prefix ==> p in spot;
      assert forall i :: 0 <= i < n ==> prefix[i] == spot[i];
      PeakOfIsFirstMaximum(img, prefix);
      var best := PeakOf(img, prefix);
      if At(img, spot[n]) > Level(img, best) {
        assert FirstMaximum(img, spot, n) by {
          if best.Some? {
            var j :| FirstMaximum(img, prefix, j) && prefix[j] == best.value;
          }
        }
      } else if best.Some? {
        var j :| FirstMaximum(img, prefix, j) && prefix[j] == best.value;
        assert FirstMaximum(img, spot, j);
      }
    }
  }

  /** One threshold's points: entry k - 1 is the peak of the region labelled k. */
  function Peaks(img: Volume<int>, c: Volume<int>): (r: seq<Option<Point>>)
    requires Conforms(img, c)
    ensures |r| == LabelCount(c)
  {
    PeaksUpTo(img, c, LabelCount(c))
  }

  /** The peaks of the regions labelled 1..n, in label order. */
  function PeaksUpTo(img: Volume<int>, c: Volume<int>, n: nat): (r: seq<Option<Point>>)
    requires Conforms(img, c)
    ensures |r| == n
  {
    if n == 0 then []
    else
      SpotInImage(img, c, n);
      PeaksUpTo(img, c, n - 1) + [PeakOf(img, Spot(c, n))]
  }

  lemma SpotInImage(img: Volume<int>, c: Volume<int>, k: int)
    requires Conforms(img, c)
    ensures forall p :: p in Spot(c, k) ==> InBounds(img, p)
  {
    forall p | p in Spot(c, k) ensures InBounds(img, p) {
      SameShapeInBounds(c, img, p);
    }
  }

  /** What `search(img, min_size, t)` returns. */
  function ExtractPeaks(img: Volume<int>, labeler: Labeler, minSize: int, t: int): seq<Option<Point>>
    requires Conforms(img, Labels(img, labeler, minSize, t))
  {
    Peaks(img, Labels(img, labeler, minSize, t))
  }

  /** `search`: one point per label 1..max(c), in label order. */
  method Search(img: Volume<int>, labeler: Labeler, minSize: int, minValue: int)
    returns (points: seq<Option<Point>>)
    requires Conforms(img, Labels(img, labeler, minSize, minValue))
    ensures |points| == LabelCount(Labels(img, labeler, minSize, minValue))
    ensures points == ExtractPeaks(img, labeler, minSize, minValue)
  {
    var c := labeler(Mask(img, minValue), minSize);
    var n := LabelCount(c);
    points := [];
    for i := 1 to n + 1
      invariant points == PeaksUpTo(img, c, i - 1)
    {
      var spot := Spot(c, i);
      SpotInImage(img, c, i);
      var maxBrightness := 0;
      var maxPosition: Option<Point> := None;
      for j := 0 to |spot|
        invariant maxPosition == PeakOf(img, spot[..j])
        invariant maxBrightness == Level(img, maxPosition)
      {
        var brightness := At(img, spot[j]);
        PeakOfStep(img, spot, j);
        if brightness > maxBrightness {
          maxBrightness := brightness;
          maxPosition := Some(spot[j]);
        }
      }
      assert spot[..|spot|] == spot;
      points := points + [maxPosition];
    }
    PeaksAt(img, c, n);
  }

  lemma {:induction false} PeaksAt(img: Volume<int>, c: Volume<int>, n: nat)
    requires Conforms(img, c)
    ensures |PeaksUpTo(img, c, n)| == n
    ensures forall i :: 0 <= i < n ==>
      (SpotInImage(img, c, i + 1); PeaksUpTo(img, c, n)[i] == PeakOf(img, Spot(c, i + 1)))
  {
    if n > 0 {
      PeaksAt(img, c, n - 1);
    }
  }

  /** One step of the scan loop: PeakOf of a longer prefix. */
  lemma PeakOfStep(img: Volume<int>, spot: seq<Point>, j: int)
    requires forall p :: p in spot ==> InBounds(img, p)
    requires 0 <= j < |spot|
    ensures forall p :: p in spot[..j] ==> InBounds(img, p)
    ensures PeakOf(img, spot[..j + 1]) ==
      var best := PeakOf(img, spot[..j]);
      if At(img, spot[j]) > Level(img, best) then Some(spot[j]) else best
  {
    assert spot[..j + 1][..j] == spot[..j];
  }

  /** The point for label k lies in region k, is a brightest voxel of the
      region and brighter than 0, and every voxel of the region before it in
      C order is strictly darker; the entry is the empty position exactly
      when no voxel of the region is brighter than 0. */
  lemma RegionPeak(img: Volume<int>, c: Volume<int>, k: int)
    requires Conforms(img, c)
    requires 1 <= k <= LabelCount(c)
    ensures |Peaks(img, c)| == LabelCount(c)
    ensures Peaks(img, c)[k - 1] == None <==>
      forall p :: InBounds(c, p) && At(c, p) == k ==> At(img, p) <= 0
    ensures Peaks(img, c)[k - 1].Some? ==>
      var q := Peaks(img, c)[k - 1].value;
      InBounds(c, q) && At(c, q) == k && InBounds(img, q) && At(img, q) > 0 &&
      (forall p :: InBounds(c, p) && At(c, p) == k ==> At(img, p) <= At(img, q)) &&
      (forall p :: InBounds(c, p) && At(c, p) == k && Before(p, q) ==> At(img, p) < At(img, q))
  {
    var spot := Spot(c, k);
    SpotInImage(img, c, k);
    CellsAscending(c);
    WhereAscending(c, Cells(c), k);
    PeakOfInOrder(img, spot);
    PeaksAt(img, c, LabelCount(c));
  }

  /** PeakOf over a list in C order, stated by membership: nothing exactly
      when no voxel is brighter than 0, otherwise a brightest voxel, brighter
      than 0, with every voxel before it in C order strictly darker. */
  lemma PeakOfInOrder(img: Volume<int>, spot: seq<Point>)
    requires forall p :: p in spot ==> InBounds(img, p)
    requires Ascending(spot)
    ensures PeakOf(img, spot) == None <==> forall p :: p in spot ==> At(img, p) <= 0
    ensures PeakOf(img, spot).Some? ==>
      var q := PeakOf(img, spot).value;
      q in spot && At(img, q) > 0 &&
      (forall p :: p in spot ==> At(img, p) <= At(img, q)) &&
      (forall p :: p in spot && Before(p, q) ==> At(img, p) < At(img, q))
  {
    PeakOfIsFirstMaximum(img, spot);
    if PeakOf(img, spot) == None {
      forall p | p in spot ensures At(img, p) <= 0 {
        var i :| 0 <= i < |spot| && spot[i] == p;
      }
    } else {
      var j :| FirstMaximum(img, spot, j) && spot[j] == PeakOf(img, spot).value;
      var q := spot[j];
      forall p | p in spot ensures At(img, p) <= At(img, q) {
        var i :| 0 <= i < |spot| && spot[i] == p;
        if i < j {}
      }
      forall p | p in spot && Before(p, q) ensures At(img, p) < At(img, q) {
        var i :| 0 <= i < |spot| && spot[i] == p;
        AscendingIndex(spot, i, j);
      }
    }
  }

  /** Different labels never share a point: within one threshold there are no
      duplicates among the located peaks. */
  lemma PeaksDistinct(img: Volume<int>, c: Volume<int>, i: int, j: int)
    requires Conforms(img, c)
    requires 0 <= i < j < LabelCount(c)
    ensures Peaks(img, c)[i].Some? && Peaks(img, c)[j].Some? ==> Peaks(img, c)[i] != Peaks(img, c)[j]
  {
    RegionPeak(img, c, i + 1);
    RegionPeak(img, c, j + 1);
  }

  /** Under the labeler's contract and a threshold t >= 0, every region yields
      a real voxel, and that voxel is labelled and brighter than t. */
  lemma ForegroundPeaks(img: Volume<int>, t: int, c: Volume<int>)
    requires LabelerContract(Mask(img, t), c)
    requires t >= 0
    ensures Conforms(img, c)
    ensures forall e :: e in Peaks(img, c) ==>
      e.Some? && InBounds(img, e.value) && At(img, e.value) > t
  {
    LabelerContractConforms(img, t, c);
    ForegroundPeaksOf(img, t, c);
  }

  /** `ForegroundPeaks` from what the labeler's contract gives: labelled
      voxels are brighter than t, and no label up to the largest is unused. */
  lemma ForegroundPeaksOf(img: Volume<int>, t: int, c: Volume<int>)
    requires Conforms(img, c)
    requires forall p :: InBounds(c, p) && At(c, p) > 0 ==> InBounds(img, p) && At(img, p) > t
    requires forall k :: 1 <= k <= LabelCount(c) ==> Spot(c, k) != []
    requires t >= 0
    ensures forall e :: e in Peaks(img, c) ==>
      e.Some? && InBounds(img, e.value) && At(img, e.value) > t
  {
    forall e | e in Peaks(img, c) ensures e.Some? && InBounds(img, e.value) && At(img, e.value) > t {
      var i :| 0 <= i < |Peaks(img, c)| && Peaks(img, c)[i] == e;
      ForegroundPeakAt(img, t, c, i + 1);
    }
  }

  lemma ForegroundPeakAt(img: Volume<int>, t: int, c: Volume<int>, k: int)
    requires Conforms(img, c)
    requires forall p :: InBounds(c, p) && At(c, p) > 0 ==> InBounds(img, p) && At(img, p) > t
    requires t >= 0
    requires 1 <= k <= LabelCount(c)
    requires Spot(c, k) != []
    ensures Peaks(img, c)[k - 1].Some?
    ensures InBounds(img, Peaks(img, c)[k - 1].value) && At(img, Peaks(img, c)[k - 1].value) > t
  {
    RegionPeak(img, c, k);
    var p := Spot(c, k)[0];
    assert InBounds(c, p) && At(c, p) == k;
  }

  /** A threshold with no voxel above it gives an empty list, not an error. */
  lemma NoForegroundNoPeaks(img: Volume<int>, t: int, c: Volume<int>)
    requires LabelerContract(Mask(img, t), c)
    requires forall p :: InBounds(img, p) ==> At(img, p) <= t
    ensures Conforms(img, c)
    ensures Peaks(img, c) == []
  {
    LabelerContractConforms(img, t, c);
    forall p | InBounds(c, p) ensures At(c, p) == 0 {
    }
  }

  // ------------------------------------------------------------ thresholds

  /** The next threshold of `range(start, stop, step)` is still inside it. */
  predicate BeforeStop(t: int, stop: int, step: int)
  {
    if step > 0 then t < stop else t > stop
  }

  /** The values of Python's `range(start, stop, step)` (a zero step raises). */
  function Thresholds(start: int, stop: int, step: int): seq<int>
    requires step != 0
    decreases if step > 0 then stop - start else start - stop
  {
    if BeforeStop(start, stop, step) then [start] + Thresholds(start + step, stop, step) else []
  }

  /** The thresholds are exactly start, start + step, ... up to, and not
      including, the first one past stop. */
  lemma {:induction false} ThresholdsExact(start: int, stop: int, step: int)
    requires step != 0
    ensures forall k :: 0 <= k < |Thresholds(start, stop, step)| ==>
      Thresholds(start, stop, step)[k] == start + k * step && BeforeStop(start + k * step, stop, step)
    ensures !BeforeStop(start + |Thresholds(start, stop, step)| * step, stop, step)
  {
    forall k | 0 <= k < |Thresholds(start, stop, step)|
      ensures Thresholds(start, stop, step)[k] == start + k * step && BeforeStop(start + k * step, stop, step)
    {
      ThresholdAt(start, stop, step, k);
    }
    ThresholdsEnd(start, stop, step);
  }

  /** Threshold k is start + k * step, and it is still before stop. */
  lemma {:induction false} ThresholdAt(start: int, stop: int, step: int, k: nat)
    requires step != 0
    requires k < |Thresholds(start, stop, step)|
    ensures Thresholds(start, stop, step)[k] == start + k * step
    ensures BeforeStop(start + k * step, stop, step)
    decreases k
  {
    var rest := Thresholds(start + step, stop, step);
    assert Thresholds(start, stop, step) == [start] + rest;
    if k > 0 {
      ThresholdAt(start + step, stop, step, k - 1);
      ShiftedMultiple(start, step, k);
    }
  }

  /** The first value past the last threshold is no longer before stop. */
  lemma {:induction false} ThresholdsEnd(start: int, stop: int, step: int)
    requires step != 0
    ensures !BeforeStop(start + |Thresholds(start, stop, step)| * step, stop, step)
    decreases if step > 0 then stop - start else start - stop
  {
    if BeforeStop(start, stop, step) {
      var rest := Thresholds(start + step, stop, step);
      assert |Thresholds(start, stop, step)| == |rest| + 1;
      ThresholdsEnd(start + step, stop, step);
      ShiftedMultiple(start, step, |rest| + 1);
    }
  }

  lemma ShiftedMultiple(start: int, step: int, k: int)
    ensures (start + step) + (k - 1) * step == start + k * step
  {
  }

  /** With a positive step no visited threshold is below start. */
  lemma ThresholdsAtLeastStart(start: int, stop: int, step: int)
    requires step > 0
    ensures forall t :: t in Thresholds(start, stop, step) ==> start <= t < stop
  {
    ThresholdsExact(start, stop, step);
    forall t | t in Thresholds(start, stop, step) ensures start <= t {
      var k :| 0 <= k < |Thresholds(start, stop, step)| && Thresholds(start, stop, step)[k] == t;
      assert k * step >= 0;
    }
  }

  // ------------------------------------------------------------- the scan

  /** Every visited threshold hands `search` a usable label volume. */
  ghost predicate ConformsAll(img: Volume<int>, labeler: Labeler, minSize: int, ts: seq<int>)
  {
    forall t :: t in ts ==> Conforms(img, Labels(img, labeler, minSize, t))
  }

  /** The union of the points of every threshold in ts. */
  function PeakUnion(img: Volume<int>, labeler: Labeler, minSize: int, ts: seq<int>): set<Option<Point>>
    requires ConformsAll(img, labeler, minSize, ts)
  {
    if ts == [] then {}
    else
      var n := |ts| - 1;
      assert forall t :: t in ts[..n] ==> t in ts;
      PeakUnion(img, labeler, minSize, ts[..n]) + Elems(ExtractPeaks(img, labeler, minSize, ts[n]))
  }

  lemma PeakUnionStep(img: Volume<int>, labeler: Labeler, minSize: int, ts: seq<int>, k: int)
    requires ConformsAll(img, labeler, minSize, ts)
    requires 0 <= k < |ts|
    ensures ConformsAll(img, labeler, minSize, ts[..k]) && ConformsAll(img, labeler, minSize, ts[..k + 1])
    ensures Conforms(img, Labels(img, labeler, minSize, ts[k]))
    ensures PeakUnion(img, labeler, minSize, ts[..k + 1]) ==
      PeakUnion(img, labeler, minSize, ts[..k]) + Elems(ExtractPeaks(img, labeler, minSize, ts[k]))
  {
    assert forall t :: t in ts[..k + 1] ==> t in ts;
    assert ts[..k + 1][..k] == ts[..k];
  }

  /** A point is in the union exactly when some visited threshold finds it. */
  lemma {:induction false} PeakUnionMembers(img: Volume<int>, labeler: Labeler, minSize: int, ts: seq<int>, e: Option<Point>)
    requires ConformsAll(img, labeler, minSize, ts)
    ensures e in PeakUnion(img, labeler, minSize, ts) <==>
      exists t :: t in ts && e in ExtractPeaks(img, labeler, minSize, t)
  {
    if ts != [] {
      var n := |ts| - 1;
      assert forall t :: t in ts <==> t in ts[..n] || t == ts[n];
      PeakUnionMembers(img, labeler, minSize, ts[..n], e);
    }
  }

  /** `list(set(points))`: the same elements, each once. Python's order is
      the set's iteration order, so no order is promised. */
  method Dedup<T(==)>(s: seq<T>) returns (r: seq<T>)
    ensures Distinct(r)
    ensures Elems(r) == Elems(s)
  {
    r := [];
    for i := 0 to |s|
      invariant Distinct(r)
      invariant Elems(r) == Elems(s[..i])
    {
      assert s[..i + 1] == s[..i] + [s[i]];
      ElemsConcat(s[..i], [s[i]]);
      if s[i] !in r {
        ElemsConcat(r, [s[i]]);
        r := r + [s[i]];
      }
    }
    assert s[..|s|] == s;
  }

  /** `singlethread`: search at every threshold of range(minValue, maxValue,
      stepSize), concatenate, remove duplicates. With saveAll an empty
      threshold is only reported, which adds nothing either way. */
  method SingleThread(img: Volume<int>, minValue: int, maxValue: int, labeler: Labeler, minSize: int,
                      stepSize: int, saveAll: bool) returns (points: seq<Option<Point>>)
    requires stepSize != 0
    requires ConformsAll(img, labeler, minSize, Thresholds(minValue, maxValue, stepSize))
    ensures Distinct(points)
    ensures Elems(points) == PeakUnion(img, labeler, minSize, Thresholds(minValue, maxValue, stepSize))
  {
    var values := Thresholds(minValue, maxValue, stepSize);
    var all: seq<Option<Point>> := [];
    for k := 0 to |values|
      invariant Elems(all) == PeakUnion(img, labeler, minSize, values[..k])
    {
      var value := values[k];
      var stepPoints := Search(img, labeler, minSize, value);
      PeakUnionStep(img, labeler, minSize, values, k);
      ElemsConcat(all, stepPoints);
      if saveAll {
        if |stepPoints| == 0 {
          // only reported; nothing to add
        } else {
          all := all + stepPoints;
        }
      } else {
        all := all + stepPoints;
      }
    }
    assert values[..|values|] == values;
    points := Dedup(all);
  }

  /** `multithread`: the same searches, run by a pool whose `starmap` is
      taken here as a sequential map over the argument table. */
  method MultiThread(img: Volume<int>, minValue: int, maxValue: int, labeler: Labeler, minSize: int,
                     stepSize: int, threads: int) returns (points: seq<Option<Point>>)
    requires stepSize != 0
    requires ConformsAll(img, labeler, minSize, Thresholds(minValue, maxValue, stepSize))
    ensures Distinct(points)
    ensures Elems(points) == PeakUnion(img, labeler, minSize, Thresholds(minValue, maxValue, stepSize))
  {
    var values := Thresholds(minValue, maxValue, stepSize);
    var valuesTable: seq<(int, int)> := [];
    for k := 0 to |values|
      invariant |valuesTable| == k
      invariant forall i :: 0 <= i < k ==> valuesTable[i] == (minSize, values[i])
    {
      valuesTable := valuesTable + [(minSize, values[k])];
    }
    SearchEachUnion(img, labeler, minSize, values, valuesTable);
    var stepPoints := StarMapSearch(img, labeler, valuesTable);
    points := Dedup(Flatten(stepPoints));
  }

  /** Every entry (min_size, value) of a `values_table` hands `search` a
      usable label volume. */
  ghost predicate ConformsTable(img: Volume<int>, labeler: Labeler, table: seq<(int, int)>)
  {
    forall i :: 0 <= i < |table| ==> Conforms(img, Labels(img, labeler, table[i].0, table[i].1))
  }

  /** `search` applied to every entry of the table, in table order. */
  function SearchEach(img: Volume<int>, labeler: Labeler, table: seq<(int, int)>): (r: seq<seq<Option<Point>>>)
    requires ConformsTable(img, labeler, table)
    ensures |r| == |table|
  {
    if table == [] then []
    else
      var n := |table| - 1;
      assert forall i :: 0 <= i < n ==> table[..n][i] == table[i];
      SearchEach(img, labeler, table[..n]) + [ExtractPeaks(img, labeler, table[n].0, table[n].1)]
  }

  /** `pool.starmap(search, values_table)`: one `search` per table entry,
      results in table order; the pool's workers are run one after another. */
  method StarMapSearch(img: Volume<int>, labeler: Labeler, table: seq<(int, int)>)
    returns (results: seq<seq<Option<Point>>>)
    requires ConformsTable(img, labeler, table)
    ensures results == SearchEach(img, labeler, table)
  {
    results := [];
    for k := 0 to |table|
      invariant ConformsTable(img, labeler, table[..k])
      invariant results == SearchEach(img, labeler, table[..k])
    {
      var (size, value) := table[k];
      var found := Search(img, labeler, size, value);
      assert table[..k + 1][..k] == table[..k];
      assert forall i :: 0 <= i <= k ==> table[..k + 1][i] == table[i];
      results := results + [found];
    }
    assert table[..|table|] == table;
  }

  /** Searching a table built from thresholds ts, then concatenating, gives
      the elements of the union over ts. */
  lemma {:induction false} SearchEachUnion(img: Volume<int>, labeler: Labeler, minSize: int,
                                           ts: seq<int>, table: seq<(int, int)>)
    requires ConformsAll(img, labeler, minSize, ts)
    requires |table| == |ts| && forall i :: 0 <= i < |ts| ==> table[i] == (minSize, ts[i])
    ensures ConformsTable(img, labeler, table)
    ensures Elems(Flatten(SearchEach(img, labeler, table))) == PeakUnion(img, labeler, minSize, ts)
  {
    assert forall i :: 0 <= i < |ts| ==> ts[i] in ts;
    if ts != [] {
      var n := |ts| - 1;
      PeakUnionStep(img, labeler, minSize, ts, n);
      assert table[..n] == table[..|table| - 1];
      SearchEachUnion(img, labeler, minSize, ts[..n], table[..n]);
      var each := SearchEach(img, labeler, table);
      assert each[..|each| - 1] == SearchEach(img, labeler, table[..n]);
      assert ts[..n + 1] == ts;
      ElemsConcat(Flatten(each[..|each| - 1]), each[|each| - 1]);
    }
  }

  /** `run_multistep_analysis`: raise the upper bound by 10, then scan with
      one thread or with a pool. The result's elements depend on neither
      the thread count nor saveAll. */
  method RunMultistepAnalysis(img: Volume<int>, saveAll: bool, minValue: int, maxValue: int,
                              labeler: Labeler, minSize: int, stepSize: int, threads: int)
    returns (points: seq<Option<Point>>)
    requires stepSize != 0
    requires ConformsAll(img, labeler, minSize, Thresholds(minValue, maxValue + 10, stepSize))
    ensures Distinct(points)
    ensures Elems(points) == PeakUnion(img, labeler, minSize, Thresholds(minValue, maxValue + 10, stepSize))
  {
    var upper := maxValue + 10;
    if threads > 1 {
      points := MultiThread(img, minValue, upper, labeler, minSize, stepSize, threads);
    } else {
      points := SingleThread(img, minValue, upper, labeler, minSize, stepSize, saveAll);
    }
  }

  /** The sequential and the pooled scan agree as sets. */
  method ScanModesAgree(img: Volume<int>, minValue: int, maxValue: int, labeler: Labeler, minSize: int,
                        stepSize: int, saveAll: bool, threads: int)
    returns (sequential: seq<Option<Point>>, pooled: seq<Option<Point>>)
    requires stepSize != 0
    requires ConformsAll(img, labeler, minSize, Thresholds(minValue, maxValue, stepSize))
    ensures Elems(sequential) == Elems(pooled)
    ensures Distinct(sequential) && Distinct(pooled)
  {
    sequential := SingleThread(img, minValue, maxValue, labeler, minSize, stepSize, saveAll);
    pooled := MultiThread(img, minValue, maxValue, labeler, minSize, stepSize, threads);
  }

  /** Under the labeler's contract at every threshold, a scan with a positive
      step from minValue >= 0 yields only real voxels brighter than minValue
      (each one brighter than the threshold that found it). */
  lemma ScanFindsBrightVoxels(img: Volume<int>, labeler: Labeler, minSize: int,
                              minValue: int, maxValue: int, stepSize: int)
    requires stepSize > 0 && minValue >= 0
    requires forall t :: t in Thresholds(minValue, maxValue, stepSize) ==>
      LabelerContract(Mask(img, t), Labels(img, labeler, minSize, t))
    ensures ConformsAll(img, labeler, minSize, Thresholds(minValue, maxValue, stepSize))
    ensures forall e :: e in PeakUnion(img, labeler, minSize, Thresholds(minValue, maxValue, stepSize)) ==>
      e.Some? && InBounds(img, e.value) && At(img, e.value) > minValue
  {
    var ts := Thresholds(minValue, maxValue, stepSize);
    ThresholdsAtLeastStart(minValue, maxValue, stepSize);
    forall t | t in ts ensures Conforms(img, Labels(img, labeler, minSize, t)) {
      LabelerContractConforms(img, t, Labels(img, labeler, minSize, t));
    }
    forall e | e in PeakUnion(img, labeler, minSize, ts)
      ensures e.Some? && InBounds(img, e.value) && At(img, e.value) > minValue
    {
      PeakUnionMembers(img, labeler, minSize, ts, e);
      var t :| t in ts && e in ExtractPeaks(img, labeler, minSize, t);
      ForegroundPeaks(img, t, Labels(img, labeler, minSize, t));
    }
  }

  // --------------------------------------------------------------- spacing

  /** Physical coordinates of a point. */
  datatype Coords = Coords(x: real, y: real, z: real)

  /** `point * spacing`, component by component. */
  function Scale(p: Coords, spacing: Coords): Coords
  {
    Coords(p.x * spacing.x, p.y * spacing.y, p.z * spacing.z)
  }

  /** Every point of a list rescaled. */
  function ScaleAll(ps: seq<Coords>, spacing: Coords): (r: seq<Coords>)
    ensures |r| == |ps|
    ensures forall i :: 0 <= i < |ps| ==> r[i] == Scale(ps[i], spacing)
  {
    if ps == [] then [] else [Scale(ps[0], spacing)] + ScaleAll(ps[1..], spacing)
  }

  /** The default spacing (1, 1, 1) changes nothing. */
  lemma ScaleAllUnit(ps: seq<Coords>)
    ensures ScaleAll(ps, Coords(1.0, 1.0, 1.0)) == ps
  {
  }

  /** Rescaling twice is rescaling once by the component-wise product. */
  lemma {:induction false} ScaleAllCompose(ps: seq<Coords>, s1: Coords, s2: Coords)
    ensures ScaleAll(ScaleAll(ps, s1), s2) == ScaleAll(ps, Coords(s1.x * s2.x, s1.y * s2.y, s1.z * s2.z))
  {
    if ps != [] {
      var product := Coords(s1.x * s2.x, s1.y * s2.y, s1.z * s2.z);
      ScaleAllCompose(ps[1..], s1, s2);
      var p := ps[0];
      var once := ScaleAll(ps, s1);
      assert once == [Scale(p, s1)] + ScaleAll(ps[1..], s1);
      assert once[1..] == ScaleAll(ps[1..], s1);
      assert ScaleAll(once, s2) == [Scale(once[0], s2)] + ScaleAll(once[1..], s2);
      assert p.x * s1.x * s2.x == p.x * (s1.x * s2.x);
      assert p.y * s1.y * s2.y == p.y * (s1.y * s2.y);
      assert p.z * s1.z * s2.z == p.z * (s1.z * s2.z);
      assert Scale(Scale(p, s1), s2) == Scale(p, product);
    }
  }

  /** `apply_spacing`: overwrite every point of the list with its rescaled
      coordinates. */
  method ApplySpacing(points: array<Coords>, spacing: Coords)
    modifies points
    ensures points[..] == ScaleAll(old(points[..]), spacing)
  {
    for i := 0 to points.Length
      invariant forall k :: 0 <= k < i ==> points[k] == Scale(old(points[k]), spacing)
      invariant forall k :: i <= k < points.Length ==> points[k] == old(points[k])
    {
      points[i] := Scale(points[i], spacing);
    }
  }

  /** `apply_spacing_on_segments`: the same for every bucket of a segmented
      list; the buckets are separate lists, as the partitioner builds them. */
  method ApplySpacingOnSegments(segmentedPoints: array<array<Coords>>, spacing: Coords)
    requires forall i, j :: 0 <= i < j < segmentedPoints.Length ==> segmentedPoints[i] != segmentedPoints[j]
    modifies set i | 0 <= i < segmentedPoints.Length :: segmentedPoints[i]
    ensures forall i :: 0 <= i < segmentedPoints.Length ==>
      segmentedPoints[i][..] == ScaleAll(old(segmentedPoints[i][..]), spacing)
  {
    for i := 0 to segmentedPoints.Length
      invariant forall k :: 0 <= k < i ==>
        segmentedPoints[k][..] == ScaleAll(old(segmentedPoints[k][..]), spacing)
      invariant forall k :: i <= k < segmentedPoints.Length ==>
        segmentedPoints[k][..] == old(segmentedPoints[k][..])
    {
      var bucket := segmentedPoints[i];
      for j := 0 to bucket.Length
        invariant forall k :: 0 <= k < i ==>
          segmentedPoints[k][..] == ScaleAll(old(segmentedPoints[k][..]), spacing)
        invariant forall k :: i < k < segmentedPoints.Length ==>
          segmentedPoints[k][..] == old(segmentedPoints[k][..])
        invariant forall m :: 0 <= m < j ==> bucket[m] == Scale(old(bucket[m]), spacing)
        invariant forall m :: j <= m < bucket.Length ==> bucket[m] == old(bucket[m])
      {
        bucket[j] := Scale(bucket[j], spacing);
      }
    }
  }
}
