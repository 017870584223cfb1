# OCR ensemble consolidation, modelled in Dafny

The OCR scripts scan each image several times, once per pair of contrast
parameters `(alpha, beta)`. They gather every detection from those scans into
one list and consolidate that list into one record per printed number. This
project models that consolidation and proves its properties. The code is the
same in `multiple_image_multiple_iteration.py` and
`single_image_multiple_iteration.py`, at the same line numbers.

It has four parts, one module each:

- `Normalizer`: `process_detected_points`. It turns one recogniser result
  into records.
  - It keeps corners 0 and 2 of each quadrilateral, divides them by the
    resize scale and truncates them toward zero (`int()`).
  - It tags each record with the scan's `alpha` and `beta`.
  - The loop is the method `ProcessDetectedPoints`, proved against the
    function `Detected`.
  - The two exceptions the code can raise are modelled as an `Outcome`:
    iterating over a `None` first page, and dividing by a zero scale.
- `ObservationFilter`: the list comprehension of `filter_and_group_points`.
  It keeps a detection whose score is at least 0.55, whose text has at most
  two characters once dots are removed, and whose text is all digits.
  Because `isdigit` is applied to the text before the dots are removed, the
  dot removal never changes which detections are kept. `AdmissibleIff` and
  `DottedOrEmptyTextRejected` prove this.
- `Clusterer`: `are_points_close` and the greedy grouping loop.
  - A detection joins the first group whose first member (its anchor) is
    within 15 pixels on all four corner coordinates.
  - If no anchor is that close, it opens a new group.
  - The loop, with its `added` flag and `break`, is the method
    `FilterAndGroupPoints`, proved against the function `Grouping`.
- `Resolver`: `purify_data`. Each non-empty group becomes one record:
  - its text is `Counter.most_common(1)`; ties go to the text counted first;
  - its score, alpha and beta come from the first member with that text and
    minimal alpha;
  - its corners are the floor means, by Python's `//`, of all members'
    corners.

  The loop is the method `PurifyData`, proved against the function
  `Purified`.

`Consolidation` composes the two calls made per image (`filter_and_group_points`
then `purify_data`) and proves end-to-end properties.

`Detection` defines the record shared by all modules. `Sequences` holds the
shared sequence helpers: subsequence, flattening and `Init`/`Last`.

Design points:

- The grouping loop appends to the inner lists in place (`group.append`).
  `Clusterer` keeps the group list as a value of type
  `seq<seq<Record>>` and updates it with `grouped[j := grouped[j] + [point]]`.
- `OCRProcessor` has no field the core updates; its only field is the
  recogniser engine. So the three operations are module-level methods, not
  methods of a class.
- The group coordinates are averaged with `sum(coord) // len(coord)`, which
  rounds toward negative infinity. `FloorMeanRoundsDown` gives -1 as the mean
  of -1 and 0, where truncation would give 0.
- `Counter.most_common(1)` is `max` over the counter's entries, in the order
  their texts first appear, keyed by count. `max` keeps the first maximal
  entry. `min(..., key=alpha)` likewise keeps the first minimal candidate.

## Model

| member | source | states |
|---|---|---|
| Normalizer.Trunc | multiple_image_multiple_iteration.py:39-40 | `int()` of a real: for a non-negative value the largest integer not above it, for a negative value the smallest integer not below it |
| Normalizer.TruncIsOdd | multiple_image_multiple_iteration.py:39-40 | truncation is odd: `int(-v) == -int(v)`, unlike flooring |
| Normalizer.TruncTowardZeroExample | multiple_image_multiple_iteration.py:39-40 | `int(-2.5)` is -2 and `int(2.5)` is 2 |
| Normalizer.ScaleDownExample | single_image_multiple_iteration.py:39-40 | a corner (20.0, 31.0) found at scale 2 maps back to (10, 15) |
| Normalizer.ProcessDetectedPoints | multiple_image_multiple_iteration.py:30-50 | the loop returns exactly `Detected`: `[]` when the guard fails, the `None`-page and zero-division errors, otherwise one record per truthy entry of the first page |
| Normalizer.NothingDetected | single_image_multiple_iteration.py:32 | a `None` result, an empty result and `[None]` all give `[]` |
| Normalizer.NonePageWithMorePagesFails | multiple_image_multiple_iteration.py:32-33 | a `None` first page followed by other pages passes the guard and fails when iterated, instead of giving `[]` |
| Normalizer.ZeroScaleFailsIffTruthy | multiple_image_multiple_iteration.py:34-40 | with scale 0 the call fails with a division by zero if and only if some entry of the first page is truthy |
| Normalizer.DetectedFollowsFirstPage | multiple_image_multiple_iteration.py:31-50 | with a non-zero scale the result is the records of the first page's truthy entries, one each; later pages are never read |
| Normalizer.TruthyLinesKeepsExactly | single_image_multiple_iteration.py:33-34 | the entries kept are exactly the truthy ones, each as often as it occurs |
| Normalizer.TruthyLinesEmptyIff | multiple_image_multiple_iteration.py:33-34 | no entry is kept if and only if every entry is falsy |
| Normalizer.TruthyLinesConcat | multiple_image_multiple_iteration.py:33-34 | keeping the truthy entries distributes over concatenation |
| Normalizer.RecordsPointwise | single_image_multiple_iteration.py:35-49 | the i-th record copies the i-th truthy entry's text and score, carries the given alpha and beta, and takes corners 0 and 2 scaled down and truncated |
| Normalizer.OtherCornersIgnored | single_image_multiple_iteration.py:39-40 | changing corners 1 and 3 of the box does not change the record |
| ObservationFilter.RemoveDotsRemovesOnlyDots | multiple_image_multiple_iteration.py:55 | `replace('.', '')` drops exactly the dots: the length falls by the number of dots, every other character occurs as often as before, no dot is left, and a text without dots is unchanged |
| ObservationFilter.AdmissibleIff | multiple_image_multiple_iteration.py:55 | a detection passes exactly when its score is at least 0.55 and its text is one or two ASCII digits |
| ObservationFilter.DottedOrEmptyTextRejected | multiple_image_multiple_iteration.py:55 | a text with a dot, or an empty text, never passes, so the dot removal changes no outcome |
| ObservationFilter.FilterKeepsExactlyAdmissible | multiple_image_multiple_iteration.py:53-56 | the filter keeps every admissible detection exactly as often as it occurs in the input, and nothing else |
| ObservationFilter.FilterIsSubsequence | multiple_image_multiple_iteration.py:53-56 | the filter's output is a subsequence of its input, so the input order is kept |
| ObservationFilter.FilterConcat | multiple_image_multiple_iteration.py:53-56 | filtering a concatenation is concatenating the filtered parts |
| ObservationFilter.FilterIdempotent | multiple_image_multiple_iteration.py:53-56 | filtering twice is filtering once |
| ObservationFilter.FilterAllAdmissible | multiple_image_multiple_iteration.py:53-56 | a list of admissible detections passes unchanged |
| Clusterer.CloseReflexive | multiple_image_multiple_iteration.py:58-64 | every detection is close to itself |
| Clusterer.CloseSymmetric | multiple_image_multiple_iteration.py:58-64 | closeness is symmetric |
| Clusterer.CloseNotTransitive | multiple_image_multiple_iteration.py:58-64 | closeness is not transitive: there are p, q, r with p close to q, q close to r, and p not close to r |
| Clusterer.FirstCloseGroup | multiple_image_multiple_iteration.py:69-73 | the inner loop's stopping point is the first group whose anchor is close, or the number of groups when none is, and no earlier anchor is close |
| Clusterer.InsertJoinsFirstCloseGroup | multiple_image_multiple_iteration.py:69-73 | a detection is appended to group j when j's anchor is the first close anchor |
| Clusterer.InsertOpensGroup | multiple_image_multiple_iteration.py:74-75 | a detection opens the new group `[p]` if and only if no anchor is close to it |
| Clusterer.InsertKeepsAnchored | multiple_image_multiple_iteration.py:67-75 | one step of the loop keeps every member close to its anchor and not close to any earlier group's anchor |
| Clusterer.InsertKeepsPartitions | multiple_image_multiple_iteration.py:67-75 | one step of the loop keeps the groups a partition of the detections seen so far, in order |
| Clusterer.GroupingInvariant | multiple_image_multiple_iteration.py:66-77 | the groups are anchored and partition the input |
| Clusterer.GroupingIsPartition | multiple_image_multiple_iteration.py:66-77 | flattened, the groups hold every input detection exactly as often as the input does; every group is non-empty and a subsequence of the input; there are no more groups than detections |
| Clusterer.GroupingMembersJoinFirstCloseAnchor | multiple_image_multiple_iteration.py:68-75 | every member is close to its group's anchor and not close to the anchor of any earlier group |
| Clusterer.GroupingAnchorsApartAndOrdered | single_image_multiple_iteration.py:66-77 | any two anchors are not close, and the anchors in group order are a subsequence of the input |
| Clusterer.GroupingAllCloseToFirst | multiple_image_multiple_iteration.py:66-77 | detections all close to the first one form exactly one group |
| Clusterer.GroupingIsOrderSensitive | multiple_image_multiple_iteration.py:66-77 | with b close to a and c but a not close to c, the order a, b, c gives groups `[[a, b], [c]]` and the order b, a, c gives `[[b, a, c]]` |
| Clusterer.FilterAndGroupPoints | multiple_image_multiple_iteration.py:52-77 | the method, with its `added` flag and `break`, returns exactly the grouping of the filtered input |
| Resolver.CountTextsIsTally | multiple_image_multiple_iteration.py:93 | the counter holds the group's texts in order of first occurrence, each with its number of occurrences, and every text of the group is a key |
| Resolver.BumpKnownKeepsTally | multiple_image_multiple_iteration.py:93 | counting a member whose text is already a key keeps the counter correct |
| Resolver.BumpNewKeepsTally | multiple_image_multiple_iteration.py:93 | counting a member with a new text appends it with count 1 and keeps the counter correct |
| Resolver.MostCommonIndexIsFirstMaximal | multiple_image_multiple_iteration.py:94 | the chosen entry has maximal count, and every earlier entry a strictly smaller one |
| Resolver.MajorityIsStable | multiple_image_multiple_iteration.py:93-94 | the majority text occurs in the group, no text occurs more often, and every member before its first occurrence has a text occurring strictly less often |
| Resolver.WithTextMembers | multiple_image_multiple_iteration.py:96 | every candidate is a member with the majority text |
| Resolver.WithTextContains | multiple_image_multiple_iteration.py:96 | every member with the text is a candidate |
| Resolver.WithTextEmptyIff | multiple_image_multiple_iteration.py:96 | there is no candidate if and only if no member has the text |
| Resolver.MinByAlphaIsMinimal | multiple_image_multiple_iteration.py:97 | the minimum by alpha is a candidate, and no candidate has a smaller alpha |
| Resolver.RepresentativeIsFirstMinimal | multiple_image_multiple_iteration.py:96-97 | the chosen candidate is the member with the text whose alpha is minimal among that text's members and strictly smaller than every earlier one's |
| Resolver.FloorDivIsFloor | multiple_image_multiple_iteration.py:101-102 | `s // n` is the q with `q * n <= s < q * n + n` |
| Resolver.FloorDivUnique | multiple_image_multiple_iteration.py:101-102 | that q is unique |
| Resolver.FloorDivIsDivision | multiple_image_multiple_iteration.py:101-102 | for a positive divisor the floor quotient equals Dafny's Euclidean `/` |
| Resolver.FloorDivBounds | multiple_image_multiple_iteration.py:101-102 | a sum between `lo * n` and `hi * n` has its floor quotient between lo and hi |
| Resolver.FloorMeanWithinValues | multiple_image_multiple_iteration.py:101-102 | the floor mean lies between the least and the greatest value averaged |
| Resolver.FloorMeanRoundsDown | multiple_image_multiple_iteration.py:101 | the mean of -1 and 0 is -1: the code floors, it does not truncate |
| Resolver.ResolveTextIsStableMajority | multiple_image_multiple_iteration.py:93-105 | the output text occurs in the group with maximal count, and every earlier member's text occurs strictly less often |
| Resolver.ResolveTakesRepresentative | multiple_image_multiple_iteration.py:96-111 | score, alpha and beta are those of the first member with the output text whose alpha is minimal among that text's members |
| Resolver.ResolveCornersWithinMembers | multiple_image_multiple_iteration.py:99-108 | each output corner coordinate lies between the members' least and greatest value of that coordinate |
| Resolver.ResolveUniform | multiple_image_multiple_iteration.py:93-111 | a group of copies of one detection resolves to that detection |
| Resolver.UniformMean | multiple_image_multiple_iteration.py:99-102 | members that all share a coordinate average to that coordinate |
| Resolver.ResolveAgreeing | multiple_image_multiple_iteration.py:93-111 | members that agree in everything but alpha and beta resolve to their common text, score and corners, with the alpha and beta of the first member of minimal alpha |
| Resolver.ResolveSingleton | single_image_multiple_iteration.py:93-111 | a group of one detection resolves to exactly that detection |
| Resolver.ResolveTieGoesToFirst | multiple_image_multiple_iteration.py:93-94 | with "12" and "17" seen once each, the output text is "12", and its score is the one of the "12" detection |
| Resolver.ResolveAveragesCorners | single_image_multiple_iteration.py:99-102 | corners (10,10)-(30,30) and (12,14)-(31,33) resolve to (11,12)-(30,31) |
| Resolver.PurifyData | multiple_image_multiple_iteration.py:86-114 | the loop returns exactly `Purified` of its input |
| Resolver.PurifiedOnePerGroup | multiple_image_multiple_iteration.py:89-112 | without empty groups, the output has one record per group, in group order, each the group's resolution |
| Resolver.PurifiedSnocNonEmpty | multiple_image_multiple_iteration.py:93-112 | a further non-empty group appends exactly its resolution to the output |
| Resolver.PurifiedSkipsEmpty | multiple_image_multiple_iteration.py:90-91 | an empty group adds nothing to the output |
| Resolver.PurifiedConcat | multiple_image_multiple_iteration.py:89-112 | purifying concatenated group lists concatenates their outputs |
| Consolidation.ConsolidatePoints | multiple_image_multiple_iteration.py:142-143 | grouping then purifying returns exactly `Consolidate` |
| Consolidation.ConsolidatedOnePerGroup | multiple_image_multiple_iteration.py:142-143 | one output record per group of filtered detections, there are no more records than admissible detections, and record j is the resolution of group j |
| Consolidation.ConsolidatedFromAdmissible | multiple_image_multiple_iteration.py:53-111 | every output record is admissible and takes its text, score, alpha and beta from one admissible input detection |
| Consolidation.InadmissibleIgnored | multiple_image_multiple_iteration.py:53-56 | inserting a detection that fails the filter anywhere changes nothing |
| Consolidation.AgreeingDetectionsConsolidate | multiple_image_multiple_iteration.py:137-143 | detections of one admissible reading from any number of scans, differing only in the alpha and beta they are tagged with, consolidate to exactly one record with that reading's text, score and corners and the alpha and beta of the first detection of minimal alpha |
| Consolidation.ConsolidationIsOrderSensitive | multiple_image_multiple_iteration.py:137-143 | the consolidation depends on the order in which detections are gathered: a, b, c gives two records where b, a, c gives one |

## Left out

- The recogniser engine (`OCRProcessor.__init__`, `run_ocr`) is a foreign
  library. Its result is a parameter of `ProcessDetectedPoints`, with the
  shape the code indexes: pages, entries `[box, (text, score)]`, a box of
  four corners.
- Malformed recogniser results (wrong nesting, missing fields, non-numeric
  coordinates) are outside that shape and are not modelled.
- `preprocess_image` is OpenCV image enhancement over pixel data. The resize
  scale it returns is a parameter of `ProcessDetectedPoints`.
- `process_image_with_params` and `process_images`/`main` are left out. They
  check that files exist, read images, write JSON, print, and catch errors
  per image.
  - The order in which `all_points` is gathered (`itertools.product` over
    alphas and betas, lines 137-140) is not modelled as a function.
  - `ConsolidationIsOrderSensitive` shows why that order matters.
- `single_image_single_iteration.py` (file output with a non-exact scale,
  drawing) and `script.js` (browser user interface) are not part of this
  model.
- `str.isdigit` is modelled over the ASCII digits `'0'..'9'`. Python also
  accepts other Unicode digits.
- Scores, alpha, beta and box coordinates are exact reals, not binary
  floating point. They are only compared, and the box coordinates are
  divided by the scale.
- The in-place `group.append` and the aliasing between `grouped_points`
  and its inner lists are modelled as value updates of a `seq<seq<Record>>`.
- Exceptions other than the two raised inside `process_detected_points` are
  not modelled. Those two are iterating a `None` page and dividing by a zero
  scale.
