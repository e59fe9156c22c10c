# Point-cloud deformation detection, modelled in Dafny

This project models the deformation-detection logic of the browser viewer
`PointCloudViewer` (`public/js/point-cloud-viewer.js`). Two point clouds of
the same object are compared in four steps:

- **Matching** (`calculateDeformations`). For every point of the first cloud,
  every point of the second is scanned. The closest one strictly within the
  hard-coded radius 2.0 is kept. A later point replaces the current best only
  when it is strictly closer, so among equally close points the first wins.
  The step emits one `{point, deformation, matched}` record per point of the
  first cloud.
- **Statistics** (`updateDeformationStats`). Over the matched records only,
  it reports the maximum deformation, the mean, the number of values above
  0.1 and the number processed.
- **Deformation cloud** (`createDeformationVisualization`). Coordinates are
  interleaved into a flat `3n` position buffer. Each record's deformation is
  divided by the largest deformation over *all* records, unmatched zeros
  included. That ratio becomes the hue `(1 - ratio) * 0.7`.
- **Plain cloud** (`createPointCloud`). The same position buffer, with one
  colour triple repeated for every point.

The files are laid out as follows:

- `geometry.dfy`: `Wrappers.Option` and `Geometry` (points, squared
  distance, `IsEuclidean`).
- `matching.dfy`: `Matching`. The matcher is an imperative method with two
  nested loops, proved against the declarative "first nearest candidate"
  predicates `IsNearest` and `Describes`.
- `statistics.dfy`: `Statistics`, the folds of `updateDeformationStats` as
  functions.
- `visualization.dfy`: `Visualization`, the buffer fills as methods over
  arrays, the hue formula as functions.
- `detection.dfy`: `Detection`, the `performDeformationDetection` pipeline.
- `scenarios.dfy`: `Scenarios`, two concrete comparisons.

Some JavaScript values are not finite. `Math.max()` of no values is
`-Infinity` and `0 / 0` is `NaN`; the model writes both as `None` of
`Option`. The running minimum starts at `Infinity`, which is the
`Infinity` case of `Matching.Bound`.

`Math.sqrt` is not modelled directly. It becomes the parameter `dist`. The
predicate `Geometry.IsEuclidean` constrains it to be the non-negative square
root of `SqDist`, and to give 0 between a point and itself. Coordinates and
distances are mathematical reals.

## Model

| member | source | states |
|---|---|---|
| `Geometry.SqDist` | public/js/point-cloud-viewer.js:186-190 | the sum of squared coordinate differences under the square root is never negative |
| `Geometry.BelowRadiusBySquares` | public/js/point-cloud-viewer.js:186-192 | a distance is below a radius exactly when the squared distance is below the squared radius, so the radius test can be read on squares |
| `Matching.CalculateDeformations` | public/js/point-cloud-viewer.js:174-206 | one record per point of `points1`, in order; record `i` has `points1[i]` as its point; it is matched exactly when some point of `points2` is closer than 2.0; a matched record's deformation is its distance to the first nearest candidate (earlier candidates strictly farther, later ones at least as far); an unmatched record's deformation is 0 |
| `Matching.NearestIsUnique` | public/js/point-cloud-viewer.js:192-194 | the strict `<` tie-break selects exactly one candidate: two indices that both satisfy it are equal |
| `Matching.DeformationIsInRangeMinimum` | public/js/point-cloud-viewer.js:180-200 | every deformation lies in `[0, 2.0)`; a matched one is the distance to some point of the second cloud and no larger than the distance to any candidate within range |
| `Matching.MatchedIffWithinRadius` | public/js/point-cloud-viewer.js:184-201 | a record is matched exactly when some point of the second cloud has squared distance below 4.0 |
| `Matching.EmptyCloudLeavesUnmatched` | public/js/point-cloud-viewer.js:184-201 | against an empty second cloud a record is unmatched and its deformation is 0 |
| `Matching.PresentPointHasZeroDeformation` | public/js/point-cloud-viewer.js:186-200 | a point that also occurs in the second cloud is matched with deformation 0, so a cloud compared with itself shows no deformation |
| `Statistics.MatchedValues` | public/js/point-cloud-viewer.js:254-255 | the matched deformations are at most as many as the records, and there are none exactly when no record is matched |
| `Statistics.MatchedValuesAppend` | public/js/point-cloud-viewer.js:254-255 | filtering a concatenation of records gives the concatenation of the filtered parts, so the matched values keep the records' order |
| `Statistics.MatchedValuesCount` | public/js/point-cloud-viewer.js:254-255 | there are exactly as many matched values as matched records |
| `Statistics.MatchedValuesMembership` | public/js/point-cloud-viewer.js:254-255 | a value is among the matched deformations exactly when some matched record carries it |
| `Statistics.MaxOf` | public/js/point-cloud-viewer.js:257 | no result (`-Infinity`) exactly for no values; otherwise a value of the list that bounds every value |
| `Statistics.Sum` | public/js/point-cloud-viewer.js:258 | no contract of its own: the `reduce((a, b) => a + b, 0)` left fold, described by `SumAppend`, `SumBounds` and `Mean` |
| `Statistics.SumAppend` | public/js/point-cloud-viewer.js:258 | the sum of a concatenation is the sum of its parts |
| `Statistics.SumBounds` | public/js/point-cloud-viewer.js:258 | values in `[0, b]` sum to between 0 and `count * b` |
| `Statistics.Mean` | public/js/point-cloud-viewer.js:258 | no result (`NaN`) exactly for no values; otherwise mean times count equals the sum |
| `Statistics.MeanBounds` | public/js/point-cloud-viewer.js:258 | the mean of values in `[0, b]` lies in `[0, b]` |
| `Statistics.CountSignificant` | public/js/point-cloud-viewer.js:259 | the number of values above 0.1 is at most the number of values |
| `Statistics.CountSignificantAppend` | public/js/point-cloud-viewer.js:259 | counting a concatenation gives the sum of the parts' counts |
| `Statistics.CountSignificantIsSize` | public/js/point-cloud-viewer.js:259 | the count is the number of indices whose value is strictly above 0.1 |
| `Statistics.SignificantRecordsSnoc` | public/js/point-cloud-viewer.js:254-259 | appending a record adds one significant record exactly when it is matched and above 0.1 |
| `Statistics.SignificantMatchedCount` | public/js/point-cloud-viewer.js:254-259 | the count over the matched values is the number of matched records whose deformation is strictly above 0.1 |
| `Statistics.CountSignificantExtremes` | public/js/point-cloud-viewer.js:259 | the count is 0 exactly when no value exceeds 0.1, and equals the number of values exactly when all do |
| `Statistics.MatchedMaximum` | public/js/point-cloud-viewer.js:254-257 | the maximum of the matched deformations bounds every matched record and is carried by a matched record |
| `Statistics.DeformationStats` | public/js/point-cloud-viewer.js:253-268 | the significant count is the number of matched records with deformation above 0.1, and at most the processed count, which is at most the record count; the processed count (`validDeformations.length`) is the number of matched records, and 0 exactly when nothing matched; maximum and mean are finite exactly when something matched; the maximum bounds every matched deformation and is one of them |
| `Statistics.AverageTimesCountIsSum` | public/js/point-cloud-viewer.js:254-258 | the reported average times the processed count is the sum of the matched deformations |
| `Statistics.MatcherStatsBounds` | public/js/point-cloud-viewer.js:253-259 | for the matcher's records the maximum lies in `[0, 2.0)` and the mean between 0 and the maximum; against an empty second cloud the statistics are `-Infinity`, `NaN`, 0 and 0 |
| `Visualization.Interleave` | public/js/point-cloud-viewer.js:132-138 | the position layout of `n` points has length `3n` |
| `Visualization.InterleaveAt` | public/js/point-cloud-viewer.js:135-138 | slot `k` of the layout holds coordinate `k % 3` (x, y, z) of point `k / 3` |
| `Visualization.InterleaveDetermined` | public/js/point-cloud-viewer.js:132-138 | a buffer of length `3n` whose every slot holds the coordinate assigned to it is the layout, so no other value is written |
| `Visualization.Deinterleave` | public/js/point-cloud-viewer.js:146 | a buffer of whole triples reads back as a third as many points |
| `Visualization.DeinterleaveInterleave` | public/js/point-cloud-viewer.js:135-138 | reading back the layout of a point list gives that list |
| `Visualization.InterleaveDeinterleave` | public/js/point-cloud-viewer.js:135-138 | every buffer of whole triples is the layout of the points read from it |
| `Visualization.CreatePointCloud` | public/js/point-cloud-viewer.js:130-144 | fresh buffers: the positions are the layout of the points, and every slot `k` of the colour buffer holds channel `k % 3` of the one colour |
| `Visualization.ColorScale` | public/js/point-cloud-viewer.js:219 | the colour scale bounds every record's deformation, unmatched records' zeros included, and is the deformation of some record |
| `Visualization.DeformationRatio` | public/js/point-cloud-viewer.js:227 | the ratio is non-finite exactly when the scale is 0 (`RatioTimesScale` gives its value) |
| `Visualization.RatioTimesScale` | public/js/point-cloud-viewer.js:227 | for a non-zero scale, the ratio times the scale gives back the deformation |
| `Visualization.DeformationHue` | public/js/point-cloud-viewer.js:227-229 | the hue `(1 - ratio) * 0.7` passed to `setHSL` is non-finite exactly when the scale is 0; its values are described by `HueIsLinear`, `HueRange`, `HueAntitone` and `HueEndpoints` |
| `Visualization.HueIsLinear` | public/js/point-cloud-viewer.js:227-229 | for a non-zero scale, the hue's drop from 0.7 times the scale is 0.7 times the deformation |
| `Visualization.HueRange` | public/js/point-cloud-viewer.js:227-229 | for a deformation in `[0, m]` with `m > 0`, the ratio lies in `[0, 1]` and the hue in `[0, 0.7]` |
| `Visualization.HueAntitone` | public/js/point-cloud-viewer.js:227-229 | a larger deformation never gets a larger hue |
| `Visualization.HueEndpoints` | public/js/point-cloud-viewer.js:227-229 | the maximal deformation gets hue 0 and deformation 0 gets hue 0.7; with scale 0 no hue is finite |
| `Visualization.CreateDeformationVisualization` | public/js/point-cloud-viewer.js:214-234 | fresh buffers: the positions are the layout of the points, and point `i` gets the hue of record `i` on the scale of all records |
| `Visualization.ColorScaleAgreesWithStats` | public/js/point-cloud-viewer.js:219 | for the matcher's records the colour scale equals the statistics' maximum when something matched and is 0 otherwise |
| `Visualization.MatcherHues` | public/js/point-cloud-viewer.js:219-229 | for the matcher's records with a positive scale, every hue is in `[0, 0.7]`, hues never increase with deformation, some point gets hue 0 and every unmatched point gets 0.7; with scale 0 no hue is finite |
| `Detection.PerformDeformationDetection` | public/js/point-cloud-viewer.js:162-172 | the pipeline's records, buffers and statistics are those of the three steps, with the statistics' bounds for the matcher's records |
| `Scenarios.TwoPointComparison` | public/js/point-cloud-viewer.js:174-206 | comparing (0,0,0), (10,0,0) with (0,0,0.05), (10,0,5): the first point is matched with a deformation of at most 0.1, the second is unmatched, and the statistics process one record with none significant |
| `Scenarios.MatchingIsDirectional` | public/js/point-cloud-viewer.js:174-206 | matching is directional: the origin matches against {origin, (10,0,0)}, but (10,0,0) is unmatched against {origin} |

## Left out

- Rendering is not modelled. This covers the Three.js scene, camera,
  renderer, lights, grid and axes helpers, the mouse orbit and zoom controls,
  `onWindowResize` and `animate`. They are UI and event handling on an
  external library.
- Scene bookkeeping is not modelled: `loadPointCloudData`,
  `clearPointClouds`, `togglePointCloud`, adding and removing objects, and
  hiding the original clouds. These are calls on library objects. No Dafny
  class stands for the viewer, because none of its fields takes part in the
  detection logic.
- Visualization.CreateDeformationVisualization: the source passes each hue
  to `THREE.Color.setHSL(hue, 1, 0.5)` and stores the resulting RGB triple.
  The model stores the hue itself, one per point, because the HSL-to-RGB
  conversion is library floating-point code.
- Visualization.CreateDeformationVisualization: it requires at least as many
  records as points. With fewer records the source reads a field of
  `undefined` and throws. Its only caller passes equal lengths.
- Visualization.CreatePointCloud: `new THREE.Color(hex)` is a library
  conversion, so the colour triple is a parameter.
- Matching.CalculateDeformations: `Math.sqrt` is the parameter `dist`,
  constrained by `Geometry.IsEuclidean`. That predicate also states outright
  that the distance from a point to itself is 0, which the square root
  guarantees.
- Float32 storage, IEEE-754 rounding, and `NaN` or infinite input
  coordinates are not modelled. Arithmetic is on exact reals.
- The DOM output of the statistics is not modelled. That covers the ×1000
  millimetre scaling and `toFixed` formatting.
- `generateMockPointCloudData` is not modelled. It draws from `Math.random`
  and uses trigonometry.
- `server.js` (HTTP routing, uploads, HTML page) is not part of this model.
- `Math.max(...values)` at lines 219 and 257 spreads the whole array into
  call arguments. JavaScript engines throw a `RangeError` once the argument
  count passes an engine-dependent limit. The model has no such limit and
  returns the maximum for every input size.
- The `console.log` messages at lines 108 and 163 are not modelled. They
  are output only.

Constants and non-finite values, as the code has them:

- The matching radius is the constant 2.0 (line 176). The significance
  threshold is the constant 0.1 (line 259).
- With no matched records, the maximum is `-Infinity` and the mean `NaN`
  (lines 257-258). The model writes both as `None`.
- A zero colour scale makes every ratio non-finite (line 227). The model
  writes that hue as `None`.
- The hue `(1 - ratio) * 0.7` falls from 0.7 to 0 as the deformation grows
  (line 229).
