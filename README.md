# DensityDots point extraction and segment partitioning in Dafny

DensityDots turns a 3D microscopy density image into a set of points. For
each brightness threshold of an integer range, the image is masked
(`img > t`), the mask is split into connected components, and every
component contributes its brightest voxel. The points of all thresholds are
then merged without duplicates. After that, the points can be rescaled by
the voxel spacing. They can also be sorted into the buckets of an external
segmentation and the buckets counted.

The model has four modules:

- `Volumes` (`volumes.dfy`): a volume is a nested sequence indexed
  `v[x][y][z]`, as the loaders leave it after swapping the stored axes.
  - `Cells` lists a volume's voxels in C order, the order in which numpy's
    `nonzero` reports them.
  - `Where` filters a list of voxels by value, keeping order and repeats.
  - `MaxValue` is `max(np.unique(v))`.
- `Lists` (`lists.dfy`): the set of a list's elements (`set(list)`),
  duplicate-freedom, `sum(lists, [])` and the sum of bucket lengths.
- `ExtractPoints` (`extract_points.dfy`): `search`, the single-threaded and
  pooled scans, `run_multistep_analysis`, and the two spacing operations.
  They are imperative methods, proved against specification functions
  (`ExtractPeaks`, `PeakUnion`, `ScaleAll`). Lemmas state what those
  functions mean.
- `SegmentOperations` (`segment_operations.dfy`): `split_points_to_segments`
  and `number_of_points_in_segment`. The split is proved against `Partition`.

The connected-component labeler (`components`, SimpleITK) is foreign code,
so it is a function-valued parameter:

- `search` itself needs only two things from it: the label volume has the
  image's shape, and no label is negative (numpy's `bincount` refuses
  negative labels).
- The rest of its behaviour is stated once, as `LabelerContract`, and
  assumed only by the lemmas that need it. Under that contract: labels are
  0 for background, a voxel carries a positive label only where the mask is
  true, and the labels 1..N are all in use.

A region none of whose voxels is brighter than 0 makes `search` append the
empty tuple `()`. The model writes that entry as `None`, and every other
entry as `Some(point)`.

## Model

| member | source | states |
|---|---|---|
| ExtractPoints.Search | parse_image/extract_points.py:45-64 | the returned list is the specification `ExtractPeaks` of this threshold; its length is the largest label of the label volume (one entry per label 1..max, 0 for an unlabelled volume) |
| ExtractPoints.LabelCount | parse_image/extract_points.py:49-52 | `len(np.bincount(c.flat)) - 1` is the largest label: no voxel has a larger label, and a positive count is attained by some voxel |
| ExtractPoints.Spot | parse_image/extract_points.py:53 | `np.nonzero(c == k)` lists exactly the voxels labelled k |
| ExtractPoints.RegionPeak | parse_image/extract_points.py:52-62 | there are max-label entries. Entry k-1 is empty exactly when no voxel labelled k is brighter than 0. Otherwise it is a voxel labelled k, brighter than 0 and at least as bright as every voxel labelled k, and every voxel labelled k before it in C order is strictly darker (first maximum wins) |
| ExtractPoints.PeakOfIsFirstMaximum | parse_image/extract_points.py:55-61 | the running maximum with strict `>` that starts at 0 yields nothing exactly when no voxel in the list is brighter than 0; otherwise it yields the voxel at the first index attaining the maximum |
| ExtractPoints.PeakOfInOrder | parse_image/extract_points.py:53-61 | over a list in C order, the chosen voxel is a member, brighter than 0, a maximum, and strictly brighter than every member before it in C order |
| ExtractPoints.PeaksDistinct | parse_image/extract_points.py:52-62 | two different labels never yield the same voxel, so within one threshold the found points are duplicate-free |
| ExtractPoints.MaskExact | parse_image/extract_points.py:47 | the mask has the image's shape and is true exactly where the brightness is strictly greater than the threshold |
| ExtractPoints.LabelerContractConforms | parse_image/extract_points.py:47 | a label volume meeting the labeler's contract for `img > t` is usable by `search`, and each of its labelled voxels is brighter than t |
| ExtractPoints.ForegroundPeaks | parse_image/extract_points.py:47-62 | under the labeler's contract and t >= 0, every entry is a real voxel of the image, and its brightness is greater than t |
| ExtractPoints.NoForegroundNoPeaks | parse_image/extract_points.py:47-64 | a threshold that no voxel exceeds yields the empty list, not an error |
| ExtractPoints.ThresholdsExact | parse_image/extract_points.py:80 | `range(start, stop, step)`, for positive or negative step, visits exactly start + k*step for k = 0, 1, ..., each still before stop, until the first value that is not |
| ExtractPoints.ThresholdsAtLeastStart | parse_image/extract_points.py:80 | with a positive step, every visited threshold t satisfies start <= t < stop |
| ExtractPoints.PeakUnionMembers | parse_image/extract_points.py:80-92 | a point lies in the merged result exactly when `search` finds it at some visited threshold |
| ExtractPoints.Dedup | parse_image/extract_points.py:92 | `list(set(points))` has no duplicates and the same elements as its input |
| ExtractPoints.SingleThread | parse_image/extract_points.py:77-93 | the result has no duplicates, and its elements are the union of `search` over the thresholds of `range(min_value, max_value, step_size)`, whether save_all is set or not |
| ExtractPoints.SearchEach | parse_image/extract_points.py:102 | one result list per argument-table entry |
| ExtractPoints.StarMapSearch | parse_image/extract_points.py:101-104 | `pool.starmap(search, values_table)` returns `search` of each table entry, in table order |
| ExtractPoints.SearchEachUnion | parse_image/extract_points.py:98-105 | concatenating the per-threshold results of a table built from the thresholds gives exactly the union over those thresholds |
| ExtractPoints.MultiThread | parse_image/extract_points.py:96-106 | the result has no duplicates, and its elements are the same union over the same thresholds as the single-threaded scan |
| ExtractPoints.ScanModesAgree | parse_image/extract_points.py:77-106 | the single-threaded and the pooled scan return the same set of points, each without duplicates |
| ExtractPoints.RunMultistepAnalysis | parse_image/extract_points.py:109-119 | whichever thread count is given, the result has no duplicates and its elements are the union over `range(min_value, max_value + 10, step_size)` |
| ExtractPoints.ScanFindsBrightVoxels | parse_image/extract_points.py:77-93 | with a positive step, min_value >= 0 and the labeler's contract at every threshold, every merged point is a real voxel whose brightness is greater than min_value |
| ExtractPoints.ScaleAll | parse_image/extract_points.py:125 | rescaling keeps the length and sets element i to point i multiplied component-wise by the spacing |
| ExtractPoints.ScaleAllUnit | parse_image/extract_points.py:36 | the default spacing (1, 1, 1) leaves every point unchanged |
| ExtractPoints.ScaleAllCompose | parse_image/extract_points.py:122-126 | rescaling twice equals rescaling once by the component-wise product of the spacings |
| ExtractPoints.ApplySpacing | parse_image/extract_points.py:122-126 | the list is overwritten in place with its rescaled points |
| ExtractPoints.ApplySpacingOnSegments | parse_image/extract_points.py:129-134 | every bucket is overwritten in place with its rescaled points; the number of buckets and each bucket's length are kept |
| Lists.Flatten | parse_image/extract_points.py:105 | `sum(step_points, [])` holds exactly the elements of the per-threshold lists |
| Volumes.Cells | parse_image/extract_points.py:53 | the voxel enumeration holds exactly the in-bounds indices |
| Volumes.CellsAscending | parse_image/extract_points.py:53 | the voxel enumeration is in strictly increasing C order, the order of `np.nonzero` |
| Volumes.Where | parse_image/segment_operations.py:34-36 | the scan keeps exactly the listed points whose value is k |
| Volumes.WhereCounts | parse_image/segment_operations.py:34-36 | every copy of a matching point is kept, and no copy of any other point |
| Volumes.WhereConcat | parse_image/segment_operations.py:34-36 | filtering distributes over concatenation, so the input order is kept |
| Volumes.WhereAscending | parse_image/extract_points.py:53 | filtering a C-ordered list leaves it in C order |
| Volumes.MaxValue | parse_image/segment_operations.py:30 | `max(np.unique(v))` of a non-empty volume is attained by some voxel and bounds every voxel |
| SegmentOperations.BucketCount | parse_image/segment_operations.py:30-32 | `range(1, max + 1)` builds no bucket exactly when no label is positive; otherwise the count is a label some voxel carries and no label exceeds it, so it is the largest label |
| SegmentOperations.PartitionAt | parse_image/segment_operations.py:32-37 | bucket i-1 is the list of the points labelled i, in input order |
| SegmentOperations.SplitPointsToSegments | parse_image/segment_operations.py:28-38 | the returned buckets are the specification `Partition` with as many buckets as the largest label |
| SegmentOperations.PartitionMeaning | parse_image/segment_operations.py:28-38 | there are no buckets exactly when the segmentation has no positive label. Bucket i-1 holds exactly the points labelled i, so a background point is in no bucket. When no label is negative, the bucket sizes plus the background points add up to the number of points |
| SegmentOperations.PartitionConserves | parse_image/segment_operations.py:32-37 | when every label is one of 0..n, nothing is lost or doubled: bucket sizes plus background points equal the number of points |
| SegmentOperations.BucketsDisjoint | parse_image/segment_operations.py:32-37 | a point lies in at most one bucket |
| SegmentOperations.NumberOfPointsInSegment | parse_image/segment_operations.py:48-53 | the keys are exactly 1..number of buckets, and key k maps to the length of bucket k-1 |

## Left out

- Image and segmentation loaders (h5py, tifffile, `swapaxes`): file decoding. Volumes are taken as already indexed (x, y, z).
- `components` (SimpleITK `ConnectedComponent` and `RelabelComponent`): foreign code. It is a `Labeler` parameter, and its behaviour is the `LabelerContract` hypothesis.
- Thread pool concurrency in `multithread`: `starmap` is modelled as a sequential map. Its result order is the table order either way.
- `savePointsAsPdb` calls, `print` logging, `statistics`, `save_segments` and `save_segments_statistics`: file output and text reports. With save_all set, `singlethread` writes one file for every threshold whose result is non-empty; the model keeps only the effect on the returned points.
- `operations/point_converter.py` (PDB reading and writing) and `points_from_image.py` (command-line glue, which adds its own 10 to the maximum) are not part of this model. `RunMultistepAnalysis` takes max_value as it is passed to `run_multistep_analysis`.
- The unused `mbright` list in `search`.
- Floating-point rounding: coordinates and spacing are real numbers, not IEEE doubles.
- Brightness is an integer (`Volume<int>`), and so are the scan bounds. A .cmap image read by `read_cmap_image` keeps its stored element type, often floating point, so the source can compare fractional brightnesses with the threshold. The model cannot state such an image. Every proof compares brightnesses only by order, so nothing in it relies on integrality. The command-line caller passes whole-number bounds.
- ExtractPoints.MultiThread: takes an integer max_value. The source truncates a fractional max_value with `int(max_value)` before `range`, while `singlethread` passes it straight to `range`, which rejects a non-integer. That difference between the two modes is not modelled.
- ExtractPoints.ForegroundPeaks, ExtractPoints.ScanFindsBrightVoxels: require a threshold of at least 0. Below 0, a region whose voxels all lie between the threshold and 0 gets the empty position `()` in `search`, which `RegionPeak` states for every threshold. The later `tuple(() * spacing)` of `apply_spacing` would then fail; spacing is modelled on coordinates only, so that failure is not modelled.
- ExtractPoints.Dedup: promises no order for its result, because the order of `list(set(...))` is the hash set's iteration order.
- ExtractPoints.SingleThread, ExtractPoints.MultiThread, ExtractPoints.RunMultistepAnalysis: a step of 0 makes Python's `range` raise `ValueError`. The model makes `step != 0` a precondition instead of modelling the exception.
- ExtractPoints.Search: labels must be non-negative and the label volume must have the image's shape. A label volume larger than the image along some axis can make numpy index outside the image, and a negative label makes `bincount` raise. Both are preconditions.
- SegmentOperations.SplitPointsToSegments: `max()` of an empty segmentation raises, and a point whose index is out of bounds raises `IndexError` (or, for a negative index, wraps around in numpy). The segmentation must be non-empty and every point in bounds. Points are voxel indices; an empty tuple `()` from `search` would make the source raise, and is not representable there.
- ExtractPoints.ApplySpacingOnSegments: requires the buckets to be distinct lists, as `split_points_to_segments` builds them. Python would rescale a bucket shared under two indices twice; that aliasing is not modelled.
- ExtractPoints.ApplySpacing, ExtractPoints.ApplySpacingOnSegments: the source also returns the list it changed. The model only changes it in place.
