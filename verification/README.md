# Characteristic-lattice blocks of cascadoc, in Dafny

This project models the computational core of cascadoc, a block-based simulator. In cascadoc, distributed blocks carry a hyperbolic 2x2 system solved on a characteristic lattice. Concentrated blocks (function, ODE and tabulated blocks) supply boundary values over time. Boundary connections tell a block when its inputs are ready.

Python floats are modelled as Dafny `real`, and the `1e-10` tolerances are the constant `EPS`. Where numpy division by zero matters (the index ranges), its infinities and NaN are modelled explicitly. An error the Python code raises becomes a `Result` error of the same exception kind, except in the cases listed under "## Left out": the older mesh with `m = 0`, where numpy's infinite steps raise nothing, and `HypBlock.ConfigOf` with `h = 0`.

The modules:
- **Geometry of the lattice.**
  - `Rectangle` is the frame.
  - `Discretization` derives the steps from the wave speeds and `m` or `h`, and the symmetric index ranges.
  - `Characteristic` clips one line through the centre against the frame. Its two implementations are `StrictCharacteristic` (no slack, no clamping) and `TolerantCharacteristic` (`EPS` slack, rounding to ten decimals, clamping `get_node`).
  - `CharacteristicReach` states when a line reaches a lattice point.
  - `CharacteristicMesh` is the current mesh and `LegacyMesh` the older one.
- **Hyperbolic block.**
  - `HyperbolicSolver` is the node solver: initial slice, boundary overwrite, step domain, dispatch, the 2x2 Cramer solve and neighbour averaging.
  - `DistributedBlock` is the distributed life cycle.
  - `HyperbolicBlock` instantiates that life cycle with the solver.
  - `HypBlock` is the block's public face with stored node values.
- **Concentrated blocks.**
  - `ConcentratedBlock` is the base block with its Euler step.
  - `OdeMesh` is the boundary time mesh.
  - `History` is the interpolating read-back shared by the function and ODE blocks.
  - `FunctionBlock`, `OdeBlock` (Runge-Kutta 4) and `FunBlock` (tabulated function) are the concrete blocks.
  - `Signals` holds step, ramp, pulse, PID and lookup-table signals.
- **Connections.** `Connection` covers boundary connections, their manager, and the `ready_until` protocol a block's readiness rests on.

Where the code does something its own tests or documentation evidently do not intend, the model keeps the behaviour as written, and the rest of the model builds on that. Beside it stands a corrected definition, with the intended property proved of it (see "## Findings").

## Model

| member | source | states |
|---|---|---|
| Rectangle.Center | src/cascadoc_deepseek/blocks/distributed_blocks/dtype/rectangle.py:16-19 | the centre lies halfway between the two `s` edges and halfway between the two `t` edges |
| Rectangle.CenterInside | src/cascadoc_deepseek/blocks/distributed_blocks/dtype/rectangle.py:16-24 | a frame with `S0 <= S1` and `T0 <= T1` contains its own centre |
| Rectangle.ContainsEdges | src/cascadoc_deepseek/blocks/distributed_blocks/dtype/rectangle.py:21-24 | containment is inclusive: all four corners are inside, and a point beyond any edge is outside |
| Rectangle.Contains | src/cascadoc_deepseek/blocks/distributed_blocks/dtype/rectangle.py:21-24 | a frame containing any point has `S0 <= S1` and `T0 <= T1`, and a well-formed frame contains its four corners |
| Rectangle.ContainsConvex | src/cascadoc_deepseek/blocks/distributed_blocks/dtype/rectangle.py:21-24 | the frame is convex: every point of the segment between two contained points is contained |
| Rectangle.ExampleFrame | src/cascadoc_deepseek/blocks/distributed_blocks/dtype/rectangle.py:16-24 | the frame `[0,10] x [0,5]` has centre `(5, 2.5)`, excludes `(-1, 2.5)` and `(5, 6)`, and includes the corner `(10, 0)` |
| Discretization.FromM | src/cascadoc_deepseek/blocks/distributed_blocks/dtype/discretization.py:29-34 | `2m` space steps `ds` span the frame's width and each characteristic time step times its speed is `ds`; `m = 0` divides by zero |
| Discretization.FromH | src/cascadoc_deepseek/blocks/distributed_blocks/dtype/discretization.py:36-41 | the two characteristic time steps add up to `h`, and each times its speed is `ds` |
| Discretization.Setup | src/cascadoc_deepseek/blocks/distributed_blocks/dtype/discretization.py:18-27 | `m` is used whenever present, otherwise `h`; a configuration with neither raises `ValueError` |
| Discretization.IndexRanges | src/cascadoc_deepseek/blocks/distributed_blocks/dtype/discretization.py:43-51 | the index ranges are symmetric about zero and exist whenever every step is non-zero; a zero Python-float `ds` (from `m`) raises `ZeroDivisionError`; zero numpy steps (from `h`) reach `math.ceil` as an infinity, raising `OverflowError`, or, in a frame of zero width, as NaN, raising `ValueError` |
| Discretization.IndexRangesReach | src/cascadoc_deepseek/blocks/distributed_blocks/dtype/discretization.py:43-51 | with positive steps, `ir` steps of `ds` and of `dt1` reach the half-width and half-height of the frame, and so do `jr` steps of `ds` and of `dt2` |
| Discretization.FiniteRanges | src/cascadoc_deepseek/blocks/distributed_blocks/dtype/discretization.py:43-51 | with non-zero steps the ranges are exactly `±ceil(max(RS/ds, RT/dt1))` and `±ceil(max(RS/ds, RT/dt2))` |
| Discretization.StepsVanishTogether | src/cascadoc_deepseek/blocks/distributed_blocks/dtype/discretization.py:29-41 | after a successful setup the space step is zero exactly when either time step is |
| Discretization.ZeroStepRejected | src/cascadoc_deepseek/blocks/distributed_blocks/dtype/discretization.py:18-51 | after a successful setup the index ranges fail exactly when the space step is zero: as `ZeroDivisionError` on the `m` path, and on the `h` path as `OverflowError` exactly when the frame has non-zero width |
| Discretization.NpDiv | src/cascadoc_deepseek/blocks/distributed_blocks/dtype/discretization.py:36-51 | a numpy quotient is the real quotient for a non-zero divisor; otherwise NaN for `0/0` and an infinity of the numerator's sign |
| Discretization.CeilFloat | src/cascadoc_deepseek/blocks/distributed_blocks/dtype/discretization.py:49-50 | `math.ceil` of a finite float is the least integer not below it; an infinity raises `OverflowError` and NaN raises `ValueError` |
| Discretization.ExampleFromM | src/cascadoc_deepseek/blocks/distributed_blocks/dtype/discretization.py:29-34 | `[0,10] x [0,5]`, speeds `(2, 3)` and `m = 10` give `ds = 0.5`, `dt1 = 0.25`, `dt2 = 1/6` |
| Discretization.BothKeysUseM | src/cascadoc_deepseek/blocks/distributed_blocks/dtype/discretization.py:22-25 | when both `m` and `h` are given, `h` has no effect |
| Characteristic.VerticalHit | src/cascadoc/blocks/distributed_blocks/dtype/characteristic.py:60-67 | a hit with the edge `s = sv` exists only when `abs(step) >= 1e-10`, lies on that edge at time `t0 + (sv - s0) / step * dt`, and lies within the (widened) time span of the frame |
| Characteristic.HorizontalHit | src/cascadoc/blocks/distributed_blocks/dtype/characteristic.py:69-76 | a hit with the edge `t = tv` exists only when `abs(dt) >= 1e-10`, lies on that edge, and lies within the (widened) space span of the frame |
| Characteristic.Keep | src/cascadoc/blocks/distributed_blocks/dtype/characteristic.py:44-46 | a candidate is kept exactly when it exists and the frame contains it |
| Characteristic.HitsAlong | src/cascadoc/blocks/distributed_blocks/dtype/characteristic.py:43-48 | at most one hit per edge tried, and every hit is inside the frame |
| Characteristic.HitIn | src/cascadoc/blocks/distributed_blocks/dtype/characteristic.py:43-48 | an in-frame candidate of any edge tried is among the hits |
| Characteristic.HitFrom | src/cascadoc/blocks/distributed_blocks/dtype/characteristic.py:43-48 | every hit is the candidate of one of the edges tried |
| Characteristic.Intersections | src/cascadoc/blocks/distributed_blocks/dtype/characteristic.py:32-48 | at most four hits, all inside the frame |
| Characteristic.HitsOfEdges | src/cascadoc/blocks/distributed_blocks/dtype/characteristic.py:38-46 | the hit list is the in-frame candidates of the edges `S0`, `S1`, `T0`, `T1`, in that order |
| Characteristic.HitOnEdge | src/cascadoc/blocks/distributed_blocks/dtype/characteristic.py:43-76 | every hit lies on an edge of the frame, and a line with both increments below `1e-10` has none |
| Characteristic.SlackAbsorbed | src/cascadoc/blocks/distributed_blocks/hyp_block/dtype/characteristic.py:64-80 | widening the transverse test by `EPS` finds exactly the hits of the unwidened test, because the inclusive containment test follows it |
| Characteristic.SlackAbsorbedAlong | src/cascadoc/blocks/distributed_blocks/hyp_block/dtype/characteristic.py:47-50 | the same equality for any list of edges |
| Characteristic.FirstMinIndex | src/cascadoc/blocks/distributed_blocks/dtype/characteristic.py:80-81 | the first element of a stable sort by `s`: a point of least `s`, and the earliest among the points with that `s` |
| Characteristic.LastMaxIndex | src/cascadoc/blocks/distributed_blocks/dtype/characteristic.py:80-81 | the last element of a stable sort by `s`: a point of greatest `s`, and the latest among the points with that `s` |
| Characteristic.BoundaryNodes | src/cascadoc/blocks/distributed_blocks/dtype/characteristic.py:78-81 | no boundary pair exactly when there is no hit; otherwise both nodes are hits and their `s` bracket the `s` of every hit |
| Characteristic.CalculateKAsWritten | src/cascadoc/blocks/distributed_blocks/dtype/characteristic.py:99-105 | the offset computation divides by zero exactly when `abs(step) <= 1e-10` and `dt == 0` |
| Characteristic.HitsHaveDivisor | src/cascadoc/blocks/distributed_blocks/dtype/characteristic.py:60-76 | a line with any hit has `abs(step) >= EPS` or `dt != 0`, so the corrected offset computation has a divisor |
| Characteristic.CalculateKAgrees | src/cascadoc/blocks/distributed_blocks/dtype/characteristic.py:99-105 | the corrected offset equals the source's wherever the source does not fail and `abs(step) != EPS` |
| Characteristic.HitOnLine | src/cascadoc/blocks/distributed_blocks/dtype/characteristic.py:60-76 | every hit lies on the line: its `s` offset over `step` equals its `t` offset over `dt` |
| Characteristic.KAsWrittenOnHit | src/cascadoc/blocks/distributed_blocks/dtype/characteristic.py:60-105 | for a hit, the offset as written, when it succeeds, equals the corrected offset; it succeeds only when `abs(step) >= EPS` or `dt != 0` |
| Characteristic.PointAtOffset | src/cascadoc/blocks/distributed_blocks/dtype/characteristic.py:93-95 | offset 0 is the centre, and the offset is recovered from the point along `s` when `step != 0` and along `t` when `dt != 0` |
| Characteristic.InternalNodes | src/cascadoc/blocks/distributed_blocks/dtype/characteristic.py:93-97 | the internal nodes are exactly the in-frame lattice points of the offsets in `[k_left, k_right]`, none for an empty range |
| Characteristic.FirstInside | src/cascadoc/blocks/distributed_blocks/hyp_block/dtype/characteristic.py:98-104 | the least offset in a range whose lattice point is in the frame, or none when no offset in the range is (`min(k_array)`) |
| Characteristic.LastInside | src/cascadoc/blocks/distributed_blocks/hyp_block/dtype/characteristic.py:98-105 | the greatest offset in a range whose lattice point is in the frame, or none (`max(k_array)`) |
| Characteristic.InsideContiguous | src/cascadoc/blocks/distributed_blocks/dtype/characteristic.py:93-97 | the in-frame offsets of a line have no gaps: between two in-frame lattice points every lattice point is in the frame |
| StrictCharacteristic.Build | src/cascadoc/blocks/distributed_blocks/dtype/characteristic.py:23-30 | construction raises exactly when the line has a hit, `abs(step) <= EPS` and `dt == 0` (the offset division by zero), and then raises `ZeroDivisionError`; otherwise the boundary pair is the first and last hit sorted by `s`, with no hit there is no node, every internal node is the in-frame lattice point of its offset, and its offset lies between the as-written offsets of the two boundary nodes |
| StrictCharacteristic.BuildIntended | src/cascadoc/blocks/distributed_blocks/dtype/characteristic.py:23-105 | with the offset measured under the same guard as the hit test, construction is total, with the same boundary pair and in-frame internal nodes enclosed by the boundary offsets |
| StrictCharacteristic.BuildAgrees | src/cascadoc/blocks/distributed_blocks/dtype/characteristic.py:23-105 | whenever construction as written succeeds, it builds what the corrected construction builds |
| StrictCharacteristic.GetNode | src/cascadoc/blocks/distributed_blocks/dtype/characteristic.py:107-109 | a node exactly for a stored offset, and then the stored node; no clamping |
| StrictCharacteristic.MissYieldsNothing | src/cascadoc/blocks/distributed_blocks/dtype/characteristic.py:25-27 | a line that misses the frame builds without error and has neither boundary nor internal nodes |
| StrictCharacteristic.HorizontalLineBounds | src/cascadoc/blocks/distributed_blocks/dtype/characteristic.py:60-105 | a horizontal line through the frame with `abs(step) > EPS` builds without error, with boundary nodes `(S0, t0)` and `(S1, t0)` |
| StrictCharacteristic.HorizontalLineAtEps | src/cascadoc/blocks/distributed_blocks/dtype/characteristic.py:60-105 | a horizontal line through the frame with `abs(step)` exactly `EPS` has hits but raises `ZeroDivisionError` |
| StrictCharacteristic.VerticalLineBounds | src/cascadoc/blocks/distributed_blocks/dtype/characteristic.py:60-105 | a vertical line through the frame builds without error, with boundary nodes `(s0, T0)` and `(s0, T1)`, bottom first, because the sort is stable |
| StrictCharacteristic.BuildEmitsLatticePoint | src/cascadoc/blocks/distributed_blocks/dtype/characteristic.py:83-105 | completeness: for a rightward line (`step >= EPS`, `dt` zero or at least `EPS` in size) that is not horizontal with `step` exactly `EPS`, construction succeeds and every in-frame lattice point is an internal node |
| StrictCharacteristic.IntendedEmitsLatticePoint | src/cascadoc/blocks/distributed_blocks/dtype/characteristic.py:83-97 | completeness of the corrected construction for every rightward line (`step >= EPS`, `dt` zero or at least `EPS` in size) |
| TolerantCharacteristic.Round10 | src/cascadoc/blocks/distributed_blocks/hyp_block/dtype/characteristic.py:50 | rounding to ten decimals moves a value by at most half of `1e-10` |
| TolerantCharacteristic.Round10Monotone | src/cascadoc/blocks/distributed_blocks/hyp_block/dtype/characteristic.py:50 | rounding to ten decimals never reverses an order |
| TolerantCharacteristic.RoundedHits | src/cascadoc/blocks/distributed_blocks/hyp_block/dtype/characteristic.py:36-52 | one rounded hit for each hit of the `EPS`-widened test, in the same order |
| TolerantCharacteristic.RoundedMember | src/cascadoc/blocks/distributed_blocks/hyp_block/dtype/characteristic.py:47-50 | the rounded image of every hit is among the rounded hits |
| TolerantCharacteristic.Build | src/cascadoc/blocks/distributed_blocks/hyp_block/dtype/characteristic.py:27-34 | no hit sets nothing; with hits, construction raises `ZeroDivisionError` exactly when `abs(step) <= EPS` and `dt == 0`, and otherwise fails only as `min()` of an empty list (`ValueError`); on success the boundary pair is the sorted first and last rounded hit, every internal node is an in-frame lattice point, and `k_left`, `k_right` are emitted offsets enclosing all the others |
| TolerantCharacteristic.Emit | src/cascadoc/blocks/distributed_blocks/hyp_block/dtype/characteristic.py:94-105 | node generation fails (`ValueError`) exactly when no offset in `[kl, kr]` is in the frame; otherwise it emits the in-frame lattice points and `k_left`, `k_right` are the least and greatest of their offsets |
| TolerantCharacteristic.BuildIntended | src/cascadoc/blocks/distributed_blocks/hyp_block/dtype/characteristic.py:27-114 | with the offset measured under the same guard as the hit test, only `min()` of an empty list can fail |
| TolerantCharacteristic.BuildAgrees | src/cascadoc/blocks/distributed_blocks/hyp_block/dtype/characteristic.py:27-114 | unless `abs(step)` is exactly `EPS`, construction as written is the corrected construction, errors included |
| TolerantCharacteristic.GetNode | src/cascadoc/blocks/distributed_blocks/hyp_block/dtype/characteristic.py:116-122 | without `k_left` the lookup raises `AttributeError`; below `k_left` it answers the left boundary node, above `k_right` the right one, in between the internal node if any |
| TolerantCharacteristic.GetNodeTotal | src/cascadoc/blocks/distributed_blocks/hyp_block/dtype/characteristic.py:97-122 | once built with emitted nodes, every offset gets a node |
| TolerantCharacteristic.RunIsEmitted | src/cascadoc/blocks/distributed_blocks/hyp_block/dtype/characteristic.py:97-105 | every in-frame lattice offset between `k_left` and `k_right` is an internal node |
| TolerantCharacteristic.BuildEmitsLatticePoint | src/cascadoc/blocks/distributed_blocks/hyp_block/dtype/characteristic.py:87-105 | completeness: for `step > EPS` and `dt` zero or at least `EPS` in size, construction as written succeeds and every in-frame lattice point is an internal node |
| TolerantCharacteristic.RoundedOffsetsEnclose | src/cascadoc/blocks/distributed_blocks/hyp_block/dtype/characteristic.py:94-98 | the offsets of the rounded boundary nodes enclose the offset of every in-frame lattice point |
| TolerantCharacteristic.RoundedBoundsNear | src/cascadoc/blocks/distributed_blocks/hyp_block/dtype/characteristic.py:47-50 | the rounded boundary abscissae lie at most half a decimal outside every in-frame lattice abscissa |
| Characteristic.DegenerateStepExample | src/cascadoc/blocks/distributed_blocks/dtype/characteristic.py:60-105 | a horizontal line with `step` exactly `EPS` through the centre of `[0,10] x [0,5]` has the left hit `(0, 2.5)`, whose offset divides by zero as written and is -50000000000 as corrected |
| CharacteristicMesh.Make | src/cascadoc_deepseek/blocks/distributed_blocks/dtype/characteristic_mesh.py:14-83 | construction fails exactly when the step setup or the index ranges fail; the centre is the frame's centre; every stored node is the lattice node of its indices and lies in the frame; an index of either family is stored exactly when it is in its range and its characteristic has internal nodes, and what is stored is that characteristic as built |
| CharacteristicMesh.GetNode | src/cascadoc_deepseek/blocks/distributed_blocks/dtype/characteristic_mesh.py:91-93 | a node exactly for stored indices, and then the stored node |
| CharacteristicMesh.GetPreceding | src/cascadoc_deepseek/blocks/distributed_blocks/dtype/characteristic_mesh.py:95-101 | `left`, `right` and `center` are the nodes at `(i-1, j)`, `(i, j-1)` and `(i-1, j-1)` |
| CharacteristicMesh.AppendNew | src/cascadoc_deepseek/blocks/distributed_blocks/dtype/characteristic_mesh.py:110-113 | appending keeps the earlier list as a prefix, keeps it free of repeats, and adds exactly the new node |
| CharacteristicMesh.AddBounds | src/cascadoc_deepseek/blocks/distributed_blocks/dtype/characteristic_mesh.py:109-113 | one loop iteration adds exactly the characteristic's two boundary nodes, without repeats |
| CharacteristicMesh.Collect | src/cascadoc_deepseek/blocks/distributed_blocks/dtype/characteristic_mesh.py:108-113 | the loop extends its accumulator, never repeats a node, lists every boundary node of every characteristic, and lists nothing else |
| CharacteristicMesh.CollectAppend | src/cascadoc_deepseek/blocks/distributed_blocks/dtype/characteristic_mesh.py:106-113 | collecting over the concatenated lists is collecting over the positive list and then over the negative one |
| CharacteristicMesh.GetBoundaryNodes | src/cascadoc_deepseek/blocks/distributed_blocks/dtype/characteristic_mesh.py:103-115 | the result has no repeats and lists only boundary nodes of kept characteristics |
| CharacteristicMesh.BoundaryNodesComplete | src/cascadoc_deepseek/blocks/distributed_blocks/dtype/characteristic_mesh.py:103-115 | every boundary node of every kept characteristic is listed, and the positive family's nodes come first |
| CharacteristicMesh.LatticeIdentity | src/cascadoc_deepseek/blocks/distributed_blocks/dtype/characteristic_mesh.py:51-89 | node `(i, j)` is offset `i` on negative characteristic `j` and offset `j` on positive characteristic `i` |
| CharacteristicMesh.NodeOnBothFamilies | src/cascadoc_deepseek/blocks/distributed_blocks/dtype/characteristic_mesh.py:51-83 | with steps of at least `EPS`, every stored node is an internal node of the kept negative characteristic `j` at offset `i` and of the kept positive characteristic `i` at offset `j` |
| CharacteristicMesh.FamiliesInsideMesh | src/cascadoc_deepseek/blocks/distributed_blocks/dtype/characteristic_mesh.py:51-83 | conversely, every internal node of a kept characteristic is a stored node at the matching indices |
| CharacteristicMesh.PrecedingAlongCharacteristics | src/cascadoc_deepseek/blocks/distributed_blocks/dtype/characteristic_mesh.py:95-101 | the left predecessor is the previous offset on the same negative characteristic, the right one the previous offset on the same positive characteristic |
| CharacteristicMesh.CenterNode | src/cascadoc_deepseek/blocks/distributed_blocks/dtype/characteristic_mesh.py:20-25 | node `(0, 0)` exists and is the frame's centre |
| CharacteristicMesh.RangesCover | src/cascadoc_deepseek/blocks/distributed_blocks/dtype/characteristic_mesh.py:73-89 | with positive steps, a node is stored exactly when its lattice point is in the frame, whatever its indices: the index ranges are wide enough |
| CharacteristicMesh.IndicesInRange | src/cascadoc_deepseek/blocks/distributed_blocks/dtype/discretization.py:43-51 | the indices of every in-frame lattice node lie within the computed symmetric ranges |
| CharacteristicMesh.NodeOffsets | src/cascadoc_deepseek/blocks/distributed_blocks/dtype/characteristic_mesh.py:85-89 | an in-frame node lies within half the width and half the height of the centre |
| CharacteristicReach.HitsAround | src/cascadoc/blocks/distributed_blocks/dtype/characteristic.py:32-76 | an in-frame lattice point of a rightward line has a hit on its left and a hit on its right |
| CharacteristicReach.LatticePointBetweenBounds | src/cascadoc/blocks/distributed_blocks/dtype/characteristic.py:83-105 | the offset of an in-frame lattice point of a rightward line lies between the offsets of the two boundary nodes, so node generation reaches it |
| LegacyMesh.Crossing | src/cascadoc_deepseek/blocks/distributed_blocks/dtype/_characteristic_mesh.py:79-84 | no crossing when `abs(dx) < 1e-10`; otherwise the crossing is `y0 + (x - x0)/dx * dy`, and only when it lies in `[yl, yr]` |
| LegacyMesh.LegacyHitsAlong | src/cascadoc_deepseek/blocks/distributed_blocks/dtype/_characteristic_mesh.py:60-77 | at most one hit per edge tried |
| LegacyMesh.SameCandidates | src/cascadoc_deepseek/blocks/distributed_blocks/dtype/_characteristic_mesh.py:64-84 | each edge's candidate from `_intersection` is the candidate of the current characteristic's edge test |
| LegacyMesh.IntendedHitsAgree | src/cascadoc_deepseek/blocks/distributed_blocks/dtype/_characteristic_mesh.py:60-77 | with a `None` test instead of truthiness, and an ordered frame, the hits are exactly those of the current characteristic |
| LegacyMesh.HitsWritten | src/cascadoc_deepseek/blocks/distributed_blocks/dtype/_characteristic_mesh.py:69-77 | the hit list is the accepted candidates of the left, right, bottom and top edges, in that order |
| LegacyMesh.BoundaryOffsets | src/cascadoc_deepseek/blocks/distributed_blocks/dtype/_characteristic_mesh.py:96-102 | the boundary offsets divide by zero exactly when `abs(step) <= 1e-10` and `dt == 0`; they are measured along `s` when `abs(step) > 1e-10` |
| LegacyMesh.SymmetricNodes | src/cascadoc_deepseek/blocks/distributed_blocks/dtype/_characteristic_mesh.py:103-112 | exactly the offsets in `-count..count` whose lattice point is in the frame, each mapped to that point |
| LegacyMesh.Build | src/cascadoc_deepseek/blocks/distributed_blocks/dtype/_characteristic_mesh.py:41-58 | no hit leaves everything unset; failure happens exactly with hits and a zero divisor; boundary nodes are set exactly when there are hits, and they are the extreme hits; the internal nodes are the symmetric lattice points up to the truncated larger offset of the two bounds |
| LegacyMesh.TruthinessDropsNodes | src/cascadoc_deepseek/blocks/distributed_blocks/dtype/_characteristic_mesh.py:69-76 | on the line `(5 + k, 5 + k)` in `[0,10] x [0,5]`, the truthiness test keeps only `(5, 5)` and the single node at offset 0, while the intended test emits the in-frame offset -5 |
| LegacyMesh.ExampleCandidates | src/cascadoc_deepseek/blocks/distributed_blocks/dtype/_characteristic_mesh.py:65-68 | in that example the left and bottom candidates are the corner `(0, 0)`, the right one is missing, the top one is `(5, 5)` |
| LegacyMesh.ExampleHits | src/cascadoc_deepseek/blocks/distributed_blocks/dtype/_characteristic_mesh.py:69-76 | in that example the truthiness test keeps only `(5, 5)` |
| LegacyMesh.IntendedEmitsLatticePoint | src/cascadoc_deepseek/blocks/distributed_blocks/dtype/_characteristic_mesh.py:87-112 | with the intended test, a rightward line (`step > EPS`, `dt` zero or at least `EPS` in size) builds without error and emits every in-frame lattice point |
| LegacyMesh.IntendedCount | src/cascadoc_deepseek/blocks/distributed_blocks/dtype/_characteristic_mesh.py:103-112 | the `count` the constructor computes covers the offset of every in-frame lattice point |
| LegacyMesh.IntendedBoundsEnclose | src/cascadoc_deepseek/blocks/distributed_blocks/dtype/_characteristic_mesh.py:51-54 | with the intended test, the `s` of the boundary nodes bracket the `s` of every in-frame lattice point |
| LegacyMesh.LegacySetup | src/cascadoc_deepseek/blocks/distributed_blocks/dtype/_characteristic_mesh.py:150-163 | `m` first, then `h`, with the same steps as the current mesh, all numpy floats; with neither, reading the unassigned `ds` raises `UnboundLocalError` |
| LegacyMesh.CharOf | src/cascadoc_deepseek/blocks/distributed_blocks/dtype/_characteristic_mesh.py:23-39 | a characteristic whose time increment is not zero always builds |
| LegacyMesh.Make | src/cascadoc_deepseek/blocks/distributed_blocks/dtype/_characteristic_mesh.py:142-234 | construction fails exactly when the step setup or the index ranges fail; all steps are non-zero; an index of either family is stored exactly when it is in its range and its characteristic is kept (a boundary node or internal nodes), and what is stored is the characteristic built for it |
| LegacyMesh.NegativeChars | src/cascadoc_deepseek/blocks/distributed_blocks/dtype/_characteristic_mesh.py:209-220 | an index is stored exactly when it is in range and its negative characteristic is kept, and what is stored is the one built for it |
| LegacyMesh.PositiveChars | src/cascadoc_deepseek/blocks/distributed_blocks/dtype/_characteristic_mesh.py:223-234 | an index is stored exactly when it is in range and its positive characteristic is kept, and what is stored is the one built for it |
| LegacyMesh.KeptIffHit | src/cascadoc_deepseek/blocks/distributed_blocks/dtype/_characteristic_mesh.py:219 | the internal-nodes half of the keep test adds nothing: a characteristic is kept exactly when it has a left boundary node |
| LegacyMesh.GetNode | src/cascadoc_deepseek/blocks/distributed_blocks/dtype/_characteristic_mesh.py:237-245 | the lookup raises `KeyError` exactly when negative characteristic `j` is missing, or it lacks offset `i` and positive characteristic `i` is missing; `None` only when neither family has the node |
| LegacyMesh.NodeIsLatticeNode | src/cascadoc_deepseek/blocks/distributed_blocks/dtype/_characteristic_mesh.py:237-245 | whichever family answers, the node is the lattice node `(i, j)` and lies in the frame |
| LegacyMesh.GetPreceding | src/cascadoc_deepseek/blocks/distributed_blocks/dtype/_characteristic_mesh.py:248-254 | succeeds exactly when all three lookups do, and then returns them as `left`, `right`, `center` |
| LegacyMesh.Flatten | src/cascadoc_deepseek/blocks/distributed_blocks/dtype/_characteristic_mesh.py:259-264 | at most two nodes per characteristic, exactly two when all have both, and every boundary node present is listed |
| LegacyMesh.BoundaryNodesNotDeduplicated | src/cascadoc_deepseek/blocks/distributed_blocks/dtype/_characteristic_mesh.py:257-265 | the list has exactly two entries per kept characteristic, repeats included |
| LegacyMesh.GetBoundaryNodes | src/cascadoc_deepseek/blocks/distributed_blocks/dtype/_characteristic_mesh.py:257-265 | every boundary node of every kept characteristic within the index ranges is listed |
| HyperbolicSolver.Grid | src/cascadoc_deepseek/blocks/distributed_blocks/dtype/characteristic_mesh.py:79-83 | the nested loops visit exactly the index pairs of the two ranges |
| HyperbolicSolver.FirstNear | src/cascadoc/blocks/distributed_blocks/hyperbolic_block.py:242-247 | the answer is a node within `1e-10` of `(s, t)` in both coordinates, preceded by no such node in dictionary order; none exactly when no node is that near |
| HyperbolicSolver.FindNodeIndex | src/cascadoc/blocks/distributed_blocks/hyperbolic_block.py:242-247 | the reverse lookup finds a mesh node within `1e-10` of `(s, t)`, or none exactly when no mesh node is that near |
| HyperbolicSolver.MakeIsLattice | src/cascadoc_deepseek/blocks/distributed_blocks/dtype/characteristic_mesh.py:73-89 | every node the mesh constructor stores sits at its lattice position, within the index ranges |
| HyperbolicSolver.LatticeSeparated | src/cascadoc_deepseek/blocks/distributed_blocks/dtype/characteristic_mesh.py:85-89 | with steps of at least `EPS`, two lattice nodes within `1e-10` of each other are the same node |
| HyperbolicSolver.FindNodeIndexInverts | src/cascadoc/blocks/distributed_blocks/hyperbolic_block.py:242-247 | on a lattice mesh with separated steps, the reverse lookup of node `k`'s coordinates is `k` |
| HyperbolicSolver.ReadAtIndex | src/cascadoc/blocks/distributed_blocks/hyperbolic_block.py:133-140 | reading the previous solution through a predecessor's coordinates is reading it at the predecessor's index, `(0, 0)` when absent |
| HyperbolicSolver.Cramer | src/cascadoc/blocks/distributed_blocks/hyperbolic_block.py:235-238 | a 2x2 solve succeeds exactly when the determinant is non-zero, and its answer solves the system |
| HyperbolicSolver.CramerUnique | src/cascadoc/blocks/distributed_blocks/hyperbolic_block.py:235-238 | a non-singular system has exactly one solution, the one returned |
| HyperbolicSolver.CenterSolve | src/cascadoc/blocks/distributed_blocks/hyperbolic_block.py:209-240 | when the trapezoidal system is non-singular the result solves it; otherwise it is the midpoint of the two predecessors' values |
| HyperbolicSolver.CenterSolveTransport | src/cascadoc/blocks/distributed_blocks/hyperbolic_block.py:214-237 | with every `B` and `F` zero, `x` comes from the right predecessor and `y` from the left one |
| HyperbolicSolver.ContributionsAreSolvedNeighbours | src/cascadoc/blocks/distributed_blocks/hyperbolic_block.py:254-264 | the interpolation sums exactly the values of the neighbours that are mesh nodes and hold a value |
| HyperbolicSolver.Mean | src/cascadoc/blocks/distributed_blocks/hyperbolic_block.py:266-267 | each component of the mean times the count is that component's sum |
| HyperbolicSolver.Interpolate | src/cascadoc/blocks/distributed_blocks/hyperbolic_block.py:249-269 | `(0, 0)` without solved neighbours, otherwise their mean |
| HyperbolicSolver.MeanWithin | src/cascadoc/blocks/distributed_blocks/hyperbolic_block.py:266-267 | a mean lies between the least and greatest of its values, componentwise |
| HyperbolicSolver.InterpolateWithin | src/cascadoc/blocks/distributed_blocks/hyperbolic_block.py:249-269 | when every solved neighbour lies in a box, so does the interpolated value |
| HyperbolicSolver.InterpolateConstant | src/cascadoc/blocks/distributed_blocks/hyperbolic_block.py:249-269 | neighbours that all hold one value interpolate to that value |
| HyperbolicSolver.RuleAt | src/cascadoc/blocks/distributed_blocks/hyperbolic_block.py:104-161 | the interior solve exactly when both predecessors exist; otherwise the `S0` rule within `1e-10` of `S0`, then the `S1` rule, then interpolation |
| HyperbolicSolver.SolveNode | src/cascadoc/blocks/distributed_blocks/hyperbolic_block.py:104-161 | a node on `S0` lacking a predecessor takes `y` from the left boundary function (0 without one), one on `S1` takes `x` from the right one, and an interpolated node without solved neighbours is `(0, 0)` |
| HyperbolicSolver.CenterNode | src/cascadoc/blocks/distributed_blocks/hyperbolic_block.py:120-147 | with the predecessors' values read by reverse lookup, the result solves the trapezoidal system when it is non-singular and is the midpoint of the two predecessors' values otherwise |
| HyperbolicSolver.LeftEdge | src/cascadoc/blocks/distributed_blocks/hyperbolic_block.py:163-184 | `y` is the left boundary function at the node's time (0 without one); `x` is the previous `x` of the right predecessor when that is found again by reverse lookup, 0 otherwise |
| HyperbolicSolver.RightEdge | src/cascadoc/blocks/distributed_blocks/hyperbolic_block.py:186-207 | `x` is the right boundary function at the node's time (0 without one); `y` is the previous `y` of the left predecessor when that is found again by reverse lookup, 0 otherwise |
| HyperbolicSolver.LeftEdgeByIndex | src/cascadoc/blocks/distributed_blocks/hyperbolic_block.py:163-184 | a node on `s = S0` lacking a predecessor gets `y` from the left boundary function at its own time (0 without one) and `x` from the previous value at `(i, j - 1)` |
| HyperbolicSolver.RightEdgeByIndex | src/cascadoc/blocks/distributed_blocks/hyperbolic_block.py:186-207 | a node on `s = S1` gets `x` from the right boundary function (0 without one) and `y` from the previous value at `(i - 1, j)` |
| HyperbolicSolver.CenterTransport | src/cascadoc/blocks/distributed_blocks/hyperbolic_block.py:120-147 | with zero coefficients an interior node takes `x` from `(i, j - 1)` and `y` from `(i - 1, j)`: exact transport along the two characteristics |
| HyperbolicSolver.InitialSolution | src/cascadoc/blocks/distributed_blocks/hyperbolic_block.py:37-58 | no solution exactly when both initial entries are falsy; otherwise every mesh node has an entry, on `t = T0` the value of each callable entry at the node's `s` and 0 for a truthy entry that is not callable, and `(0, 0)` elsewhere |
| HyperbolicSolver.DefaultsStartAtZero | src/cascadoc/blocks/distributed_blocks/hyperbolic_block.py:37-58 | with both initial entries absent, so defaulting to `lambda s: 0.0`, the initial solution exists and is zero at every node |
| HyperbolicSolver.ApplyBoundary | src/cascadoc/blocks/distributed_blocks/hyperbolic_block.py:60-83 | a missing or empty solution is left alone; otherwise nodes on `S0` at time `t` get `y = left(t)`, nodes on `S1` at time `t` get `x = right(t)`, every other component keeps its value, and the boundary nodes are added |
| HyperbolicSolver.OverwriteValues | src/cascadoc/blocks/distributed_blocks/hyperbolic_block.py:65-83 | after both loops each entry's `x` and `y` are the boundary values where they apply and the previous values elsewhere |
| HyperbolicSolver.ApplyBoundaryIdempotent | src/cascadoc/blocks/distributed_blocks/hyperbolic_block.py:60-83 | applying the boundary conditions twice at one time is applying them once |
| HyperbolicSolver.SolveStep | src/cascadoc/blocks/distributed_blocks/hyperbolic_block.py:85-102 | a step solves exactly the mesh nodes no later than `t + dt` |
| HyperbolicSolver.StepDomain | src/cascadoc/blocks/distributed_blocks/hyperbolic_block.py:93-98 | the nodes a step visits are exactly the mesh nodes no later than `t + dt` |
| HyperbolicSolver.RunStep | src/cascadoc/blocks/distributed_blocks/hyperbolic_block.py:87-102 | the loop over the nodes, in any order that lists every mesh node, skipping late and already-solved ones, builds the same dictionary as solving each node once from the previous solution |
| HyperbolicSolver.StepWithinInitial | src/cascadoc/blocks/distributed_blocks/hyperbolic_block.py:44-102 | a step never solves a node the initial solution lacks |
| HyperbolicSolver.MissingSolutionError | src/cascadoc/blocks/distributed_blocks/hyperbolic_block.py:120-269 | with no previous solution, a node raises only `AttributeError` (`.get` on `None`) or `TypeError` (`in None`), and `TypeError` exactly for an interpolated node |
| HyperbolicSolver.SilentNodeIgnoresSolution | src/cascadoc/blocks/distributed_blocks/hyperbolic_block.py:104-269 | a node that raises nothing without a solution computes the same value from every previous solution |
| HyperbolicSolver.EarliestFailure | src/cascadoc/blocks/distributed_blocks/hyperbolic_block.py:89-100 | the first raising node of the time-sorted loop: a raising node of the step, of least time among them, and first in dictionary order among those of that time; none exactly when no node of the step raises |
| HyperbolicSolver.NodeOrdered | src/cascadoc_deepseek/blocks/distributed_blocks/dtype/characteristic_mesh.py:73-83 | every node of a lattice mesh appears in the dictionary's insertion order |
| HyperbolicSolver.SilentStepIgnoresSolution | src/cascadoc/blocks/distributed_blocks/hyperbolic_block.py:85-102 | when no node of the step touches the solution, the step gives the same result from every previous solution |
| DistributedBlock.Fresh | src/cascadoc_deepseek/blocks/distributed_blocks/base_distributed_block.py:12-17 | a new block has no mesh, no solution, no initial condition, no boundary conditions, and is not initialised |
| DistributedBlock.DefaultSolution | src/cascadoc_deepseek/blocks/distributed_blocks/base_distributed_block.py:40-47 | a solution is built exactly when there is a mesh and an initial condition, with one entry per mesh node holding the initial condition at the node's `s` |
| DistributedBlock.StoreConditions | src/cascadoc_deepseek/blocks/distributed_blocks/base_distributed_block.py:31-34 | only the keys that are present overwrite the stored conditions; nothing else changes |
| DistributedBlock.Initialize | src/cascadoc_deepseek/blocks/distributed_blocks/base_distributed_block.py:29-38 | a failing mesh build is the failure; otherwise the block is initialised with the built mesh, the stored conditions, and the hook's solution (or the old one when the hook gives none) |
| DistributedBlock.Step | src/cascadoc_deepseek/blocks/distributed_blocks/base_distributed_block.py:49-60 | an uninitialised block raises `RuntimeError` naming the block; otherwise the boundary update then the solve both succeed, a non-empty new solution replaces the boundary-updated one, and the output is the solution and the mesh |
| DistributedBlock.StepBeforeInitialize | src/cascadoc_deepseek/blocks/distributed_blocks/base_distributed_block.py:51-52 | stepping a fresh block raises `RuntimeError`, whatever the hooks do |
| DistributedBlock.InitializeDefault | src/cascadoc_deepseek/blocks/distributed_blocks/base_distributed_block.py:29-47 | with the default hook and an initial condition, initialisation succeeds and the solution covers exactly the mesh nodes |
| HyperbolicBlock.ApplyBoundaryOf | src/cascadoc/blocks/distributed_blocks/hyperbolic_block.py:60-83 | an empty or missing solution is returned untouched; with a mesh the result is the boundary update of the solution |
| HyperbolicBlock.SolveOf | src/cascadoc/blocks/distributed_blocks/hyperbolic_block.py:85-102 | without a mesh the solve raises; with a mesh and a solution it is the solver's step; with a mesh and no solution it raises the error of a node of the step that touches the solution, and otherwise completes with no node touching it |
| HyperbolicBlock.MissingSolutionHarmless | src/cascadoc/blocks/distributed_blocks/hyperbolic_block.py:85-102 | on a lattice mesh, a step that completes without a solution has the result every previous solution would give |
| HyperbolicBlock.Step | src/cascadoc_deepseek/blocks/distributed_blocks/base_distributed_block.py:49-60 | an uninitialised block raises `RuntimeError`; an initialised block with a mesh and a solution always steps, to the solve of its boundary-updated solution when that is non-empty and to the boundary-updated solution otherwise, keeping its mesh |
| HyperbolicBlock.Initialize | src/cascadoc/blocks/distributed_blocks/hyperbolic_block.py:37-58 | initialisation fails exactly when the mesh construction does; otherwise the block is initialised with that mesh and, when some initial entry is truthy, with the initial solution |
| HyperbolicBlock.BoundaryKeepsNodeDomain | src/cascadoc/blocks/distributed_blocks/hyperbolic_block.py:60-83 | the boundary update keeps a solution whose keys are the mesh nodes on exactly those keys |
| HyperbolicBlock.FirstStepDomain | src/cascadoc/blocks/distributed_blocks/hyperbolic_block.py:44-102 | a freshly initialised block with a truthy initial entry steps without error, and afterwards its solution covers exactly the nodes no later than `t + dt`, or every node when there are none |
| OdeMesh.StepTimes | src/cascadoc_deepseek/blocks/concentrated_blocks/dtype/mesh.py:40-44 | a zero step divides by zero; otherwise `int((T1 - T0)/dt) + 1` times (none when that is not positive), the `i`-th being `T0 + i*dt` |
| OdeMesh.Grid | src/cascadoc_deepseek/blocks/concentrated_blocks/dtype/mesh.py:46-51 | the nodes are exactly the given times inside `[T0, T1]`, placed at the boundary position |
| OdeMesh.Make | src/cascadoc_deepseek/blocks/concentrated_blocks/dtype/mesh.py:16-38 | `dt` first, then `num_points`, then an explicit `mesh`, else `Exception('no mesh')`; the step modes fail exactly on a zero divisor; the nodes are the grid of the time nodes; the side defaults to `left` |
| OdeMesh.GetNode | src/cascadoc_deepseek/blocks/concentrated_blocks/dtype/mesh.py:57-61 | a node exactly for an index in `0 <= k < len(nodes)`, and then that node |
| OdeMesh.PyIndex | src/cascadoc_deepseek/blocks/concentrated_blocks/dtype/mesh.py:69-70 | list indexing succeeds exactly for `-len <= k < len`, counting negative indices from the end |
| OdeMesh.GetPreceding | src/cascadoc_deepseek/blocks/concentrated_blocks/dtype/mesh.py:63-71 | index 0 gives no predecessor and the first node, failing only on an empty list; any other index succeeds exactly when both list reads are valid Python indices |
| OdeMesh.GetBoundaryNodes | src/cascadoc_deepseek/blocks/concentrated_blocks/dtype/mesh.py:53-61 | the boundary nodes are the list `get_node` indexes: a node exactly at their positions, and the same node |
| OdeMesh.BoundaryNodesOnLine | src/cascadoc_deepseek/blocks/concentrated_blocks/dtype/mesh.py:46-61 | every boundary node of a constructed mesh lies on the boundary line within `[T0, T1]`, and the list is the one `get_node` indexes |
| OdeMesh.PrecedingAgreesWithGetNode | src/cascadoc_deepseek/blocks/concentrated_blocks/dtype/mesh.py:57-71 | inside the list the predecessor pair is `get_node(k - 1)` and `get_node(k)` |
| OdeMesh.NegativeIndexWraps | src/cascadoc_deepseek/blocks/concentrated_blocks/dtype/mesh.py:63-71 | `get_preceding_nodes(-1)` answers the last two nodes, although `get_node(-1)` is `None` |
| OdeMesh.StepNodesInFrame | src/cascadoc_deepseek/blocks/concentrated_blocks/dtype/mesh.py:25-51 | with `dt > 0` and `T0 <= T1` no time is filtered out: the nodes are `(position, T0 + i*dt)` for `i = 0 .. int((T1 - T0)/dt)` |
| OdeMesh.CountNodes | src/cascadoc_deepseek/blocks/concentrated_blocks/dtype/mesh.py:28-30 | with `num_points = n > 0` the nodes are the `n + 1` points `T0 + i*(T1 - T0)/n` |
| OdeMesh.CountStep | src/cascadoc_deepseek/blocks/concentrated_blocks/dtype/mesh.py:29-44 | the step `(T1 - T0)/n` gives exactly `n` whole steps, the last ending at `T1` |
| OdeMesh.LineEnd | src/cascadoc_deepseek/blocks/concentrated_blocks/dtype/mesh.py:43-44 | when `n` steps span the interval, the last of the `n + 1` nodes is at `T1` |
| ConcentratedBlock.Fresh | src/cascadoc_deepseek/blocks/concentrated_blocks/base_concentrated_block.py:12-16 | a new block is at time 0 with no state and is not initialised |
| ConcentratedBlock.Initialize | src/cascadoc_deepseek/blocks/concentrated_blocks/base_concentrated_block.py:27-33 | the block becomes initialised; `state` and `t0` overwrite only when present |
| ConcentratedBlock.Step | src/cascadoc_deepseek/blocks/concentrated_blocks/base_concentrated_block.py:35-45 | an uninitialised block raises `RuntimeError` naming it; the derivative is evaluated at the stored state, missing or not, and whatever it raises propagates unchanged; a missing state with a derivative raises `TypeError`; otherwise the new state differs from the old by the derivative times `dt`, and the clock is `t + dt` |
| ConcentratedBlock.RunConstantRate | src/cascadoc_deepseek/blocks/concentrated_blocks/base_concentrated_block.py:40-43 | with a constant derivative `c`, `n` Euler steps move the state by exactly `n*c*dt` and the clock to `t + n*dt` |
| Connection.Attached | src/cascadoc/blocks/base_block.py:12-15 | a block never connected has an empty connection list |
| Connection.NewConnection | src/cascadoc_deepseek/core/connection.py:10-16 | a new connection records both ends and both boundary names and is ready until time 0 |
| Connection.MarkReady | src/cascadoc_deepseek/core/connection.py:28-30 | the marked connection's bound becomes `until` exactly; every other connection and every list is unchanged |
| Connection.ConnectBlocks | src/cascadoc_deepseek/core/connection.py:38-48 | the new connection is stored once, appended to the manager's list and to the target block's list (and no other block's), and its identity is returned |
| Connection.ConnectionsFor | src/cascadoc_deepseek/core/connection.py:50-53 | the filter returns at most the listed connections, all stored |
| Connection.ConnectionsForMembers | src/cascadoc_deepseek/core/connection.py:50-53 | a listed connection is returned for a block exactly when the block is its source or its target |
| Connection.ConnectionsForOrdered | src/cascadoc_deepseek/core/connection.py:50-53 | the comprehension only drops entries: any two returned connections appear in the listed ones in the same order |
| Connection.GetConnectionsForBlock | src/cascadoc_deepseek/core/connection.py:50-53 | a managed connection is returned for a block exactly when the block is its source or its target, and the returned connections keep the manager's order |
| Connection.BlockReady | src/cascadoc/blocks/base_block.py:44-46 | a block is ready at `t` exactly when `t` is within the `ready_until` of each of its connections, so always when it has none |
| Connection.BlockReadyMonotone | src/cascadoc/blocks/base_block.py:44-46 | a block ready at `t` is ready at every earlier time |
| Connection.ConnectKeepsValid | src/cascadoc_deepseek/core/connection.py:38-48 | connecting keeps every list entry pointing at a stored connection |
| Connection.ReadyMonotone | src/cascadoc_deepseek/core/connection.py:24-26 | a connection ready at `t` is ready at every earlier time |
| Connection.UnconnectedReady | src/cascadoc/blocks/base_block.py:44-46 | a block without connections is ready at every time |
| Connection.ConnectBlocksReadiness | src/cascadoc/blocks/base_block.py:44-46 | a freshly connected target is not ready at any positive time, and every other block's readiness is unchanged |
| Connection.MarkReadyShared | src/cascadoc_deepseek/core/connection.py:28-30 | marking a block's only connection through the manager makes the block ready exactly up to the mark, since both hold the same object |
| Connection.MarkReadyOverwrites | src/cascadoc_deepseek/core/connection.py:28-30 | the last mark wins, so a later, smaller mark makes a connection unready at a time it was ready for |
| Connection.BoundaryValue | src/cascadoc/blocks/base_block.py:37-42 | no connection with that source boundary gives `None` |
| Connection.BoundaryValueFirstMatch | src/cascadoc/blocks/base_block.py:37-42 | the first connection with that source boundary answers; through the placeholder reader the answer is always `None` |
| Connection.GetBoundaryValue | src/cascadoc/blocks/base_block.py:37-42 | the first of the block's connections with that source boundary answers; with none the answer is `None` |
| Connection.StubRead | src/cascadoc_deepseek/core/connection.py:18-22 | the connection's own reader always answers `None` |
| Connection.CollectInputs | src/cascadoc/blocks/concentrated_blocks/function_block.py:95-106 | every collected key is the source boundary of some reading |
| Connection.CollectInputsLastWins | src/cascadoc/blocks/concentrated_blocks/ode_block.py:34-45 | a boundary is among the inputs exactly when some reading for it succeeded with a value, and its value is the last such |
| Connection.CollectNothing | src/cascadoc/blocks/concentrated_blocks/function_block.py:97-106 | when every reading answers `None`, nothing is collected |
| History.FirstAtOrAfter | src/cascadoc/blocks/concentrated_blocks/ode_block.py:94-95 | the index of the first sample whose time is at least `t`; none exactly when every sample is earlier |
| History.ValueAt | src/cascadoc/blocks/concentrated_blocks/ode_block.py:88-103 | the read-back is `None` exactly for an empty history |
| History.ValueAtClamps | src/cascadoc/blocks/concentrated_blocks/ode_block.py:94-103 | at or before the first sample the first value is returned; after every sample the last value |
| History.ValueAtRecorded | src/cascadoc/blocks/concentrated_blocks/ode_block.py:94-101 | with strictly increasing times, reading back at a recorded time returns the value recorded there |
| History.ValueAtBetween | src/cascadoc/blocks/concentrated_blocks/ode_block.py:98-101 | an interpolated value lies between the two sample values it comes from |
| History.ValueAtLinear | src/cascadoc/blocks/concentrated_blocks/ode_block.py:94-103 | a history sampled from a straight line reads back that line anywhere within its recorded span |
| History.ValueAtOnGraph | src/cascadoc/blocks/concentrated_blocks/function_block.py:135-142 | a history whose samples lie on the graph of `g` in non-decreasing time order reads back `g` at every recorded time, even at a time recorded twice |
| FunctionBlock.Validate | src/cascadoc/blocks/concentrated_blocks/function_block.py:43-55 | a constant given as a number or as a nullary callable passes, and the callable is replaced by its number; the time kinds pass exactly when given a callable; every failure is a `ValueError`; any other kind passes unchanged |
| FunctionBlock.ValidateIntended | src/cascadoc/blocks/concentrated_blocks/function_block.py:28-31 | only the three documented kinds are accepted; any other kind is a `ValueError`; on the known kinds it agrees with the check as written |
| FunctionBlock.Compute | src/cascadoc/blocks/concentrated_blocks/function_block.py:74-93 | a constant evaluates to its number, a time function to its value at `t`, a time-and-inputs function to its value at `t` and the inputs; an unknown kind and every failing evaluation are a `RuntimeError` |
| FunctionBlock.New | src/cascadoc/blocks/concentrated_blocks/function_block.py:19-41 | construction succeeds exactly when the check does, stores the checked function, and fails only with a `ValueError` |
| FunctionBlock.NewIntended | src/cascadoc/blocks/concentrated_blocks/function_block.py:19-41 | with the intended check, a block of unknown kind is never built, and a built block is the one the constructor as written builds |
| FunctionBlock.Initialize | src/cascadoc/blocks/concentrated_blocks/function_block.py:57-72 | the block becomes initialised at `t0` (0 by default); the history restarts with a single sample carrying the value held before, not the one computed; a failing evaluation is a `RuntimeError` |
| FunctionBlock.InitializeIntended | src/cascadoc/blocks/concentrated_blocks/function_block.py:57-72 | the first sample carries the value computed at `t0`, and the current value becomes it |
| FunctionBlock.Step | src/cascadoc/blocks/concentrated_blocks/function_block.py:108-127 | an uninitialised block raises the documented `RuntimeError`; otherwise the step succeeds exactly when the evaluation at `t` does, moves the clock to `t + dt`, appends one sample and returns the value with `t + dt` as time and ready-until |
| FunctionBlock.StepIntended | src/cascadoc/blocks/concentrated_blocks/function_block.py:108-127 | succeeds and fails exactly as the step as written and returns the same output, but records the value under the time `t` it was computed for |
| FunctionBlock.ValueAtTime | src/cascadoc/blocks/concentrated_blocks/function_block.py:129-145 | with no history the function is evaluated directly; with a history the answer is the history read back and never fails |
| FunctionBlock.ConstantIsConstant | src/cascadoc/blocks/concentrated_blocks/function_block.py:45-51 | a constant block that passes construction computes its constant at every time and for all inputs |
| FunctionBlock.TimeBlockEvaluates | src/cascadoc/blocks/concentrated_blocks/function_block.py:53-55 | a time block that passes construction evaluates its callable at `t` and fails exactly when the callable does |
| FunctionBlock.UnknownKindAccepted | src/cascadoc/blocks/concentrated_blocks/function_block.py:43-55 | a block of unknown kind is constructed as written and then every evaluation of it fails |
| FunctionBlock.InvalidTypeExample | src/cascadoc/blocks/concentrated_blocks/function_block.py:43-55 | the kind "invalid_type" with the constant 5.0 is accepted as written and rejected with a `ValueError` as intended |
| FunctionBlock.FreshInitializeRecordsZero | src/cascadoc/blocks/concentrated_blocks/function_block.py:37 | as written, a freshly built block's first sample and current value are 0.0 whatever the function's value at `t0` |
| FunctionBlock.ConstantFiveExample | src/cascadoc/blocks/concentrated_blocks/function_block.py:57-72 | for the constant 5.0 the first sample holds 0.0 as written and 5.0 as intended |
| FunctionBlock.IntendedInitializeOnGraph | src/cascadoc/blocks/concentrated_blocks/function_block.py:57-72 | as intended, initialising a function of time succeeds and its first sample lies on the function's graph |
| FunctionBlock.IntendedStepOnGraph | src/cascadoc/blocks/concentrated_blocks/function_block.py:108-127 | as intended, a step at a time not before the last sample succeeds and keeps the history on the function's graph and in time order |
| FunctionBlock.IntendedReadBack | src/cascadoc/blocks/concentrated_blocks/function_block.py:129-142 | a history on the function's graph in time order reads back the function's exact value at every recorded time |
| FunctionBlock.IntendedRunOnGraph | src/cascadoc/blocks/concentrated_blocks/function_block.py:108-127 | as intended, stepping at non-decreasing times appends exactly one sample per step, keeps the earlier samples, and every new sample is the function's value at its step time |
| FunctionBlock.IntendedRunReadsBack | src/cascadoc/blocks/concentrated_blocks/function_block.py:108-145 | as intended, after a run every step time reads back as the function's value there |
| FunctionBlock.StepRecordsLate | src/cascadoc/blocks/concentrated_blocks/function_block.py:117-121 | as written, the sample appended by a step pairs the time `t + dt` with the function's value at `t` |
| FunctionBlock.SquareReadBackAsWritten | src/cascadoc/blocks/concentrated_blocks/function_block.py:108-145 | for `t ** 2` initialised at 0 and stepped at 0, 0.1, 0.2 with `dt = 0.1`, the read-back at 0.15 is 0.005 as written |
| FunctionBlock.SquareReadBackIntended | src/cascadoc/blocks/concentrated_blocks/function_block.py:108-145 | the same run read back at 0.15 gives 0.025 as intended, the interpolation between 0.01 and 0.04 |
| OdeBlock.New | src/cascadoc/blocks/concentrated_blocks/ode_block.py:12-22 | a new block keeps its name and initial state, is not initialised and has an empty history |
| OdeBlock.Initialize | src/cascadoc/blocks/concentrated_blocks/ode_block.py:47-63 | the state is the given one or else the constructor's, the clock the given `t0` or else 0, and the history restarts with exactly that one sample |
| OdeBlock.Derivative | src/cascadoc/blocks/concentrated_blocks/ode_block.py:24-32 | the derivative is the right-hand side's value at the time, state and inputs; a failing right-hand side is a `RuntimeError` |
| OdeBlock.Step | src/cascadoc/blocks/concentrated_blocks/ode_block.py:65-86 | an uninitialised block raises the documented `RuntimeError`; a successful step needs the first slope, moves the clock to `t + dt`, appends one sample with the new state and returns it with `t + dt` as time and ready-until |
| OdeBlock.SolutionAt | src/cascadoc/blocks/concentrated_blocks/ode_block.py:88-97 | `None` exactly with no history; at or before the first sample the first state |
| OdeBlock.TotalStepSucceeds | src/cascadoc/blocks/concentrated_blocks/ode_block.py:65-86 | a right-hand side that never fails never makes an initialised block's step fail |
| OdeBlock.RhsFailureFailsStep | src/cascadoc/blocks/concentrated_blocks/ode_block.py:29-32 | a failing first slope fails the step with the right-hand side's `RuntimeError` |
| OdeBlock.ConstantRhsStep | src/cascadoc/blocks/concentrated_blocks/ode_block.py:71-77 | for `y' = c` the step is exact: the state grows by `c * dt` |
| OdeBlock.TimeOnlyRhsIsSimpson | src/cascadoc/blocks/concentrated_blocks/ode_block.py:71-77 | when the right-hand side depends on time alone, the step adds Simpson's rule for the integral over `[t, t + dt]` |
| OdeBlock.LinearRhsStep | src/cascadoc/blocks/concentrated_blocks/ode_block.py:71-77 | for `y' = lam * y` a step multiplies the state by the degree-four Taylor polynomial of `exp(lam * dt)` |
| OdeBlock.DecayFactorBounds | src/cascadoc/blocks/concentrated_blocks/ode_block.py:71-77 | for `0 < x <= 1` the decay factor of a step lies strictly between 0 and 1 |
| OdeBlock.DecayShrinks | src/cascadoc/blocks/concentrated_blocks/ode_block.py:71-77 | for decay `y' = -k * y` with `0 < k * dt <= 1` a step keeps the sign of the state, keeps 0 at 0 and strictly shrinks any other state |
| OdeBlock.RunHistoryLength | src/cascadoc/blocks/concentrated_blocks/ode_block.py:77-80 | each of `n` steps appends exactly one sample and keeps the earlier ones |
| OdeBlock.ClockIsLinear | src/cascadoc/blocks/concentrated_blocks/ode_block.py:77 | `n` clock advances of `dt` from `t` reach `t + n * dt` |
| OdeBlock.RunClock | src/cascadoc/blocks/concentrated_blocks/ode_block.py:77 | `n` steps from the block's own clock advance it by `n * dt` |
| OdeBlock.InitializeThenRun | src/cascadoc/blocks/concentrated_blocks/ode_block.py:47-86 | after `initialize` and `n` steps there are exactly `n + 1` samples |
| OdeBlock.ConstantRunOnLine | src/cascadoc/blocks/concentrated_blocks/ode_block.py:65-86 | for `y' = c` with `dt >= 0`, running keeps every sample and the state on the exact solution line |
| OdeBlock.ConstantRunReadsExact | src/cascadoc/blocks/concentrated_blocks/ode_block.py:47-103 | for `y' = c`, from an initialised block, any number of steps read back the exact solution `y0 + c * (t - t0)` anywhere in the recorded span |
| OdeBlock.OnLineReadsBack | src/cascadoc/blocks/concentrated_blocks/ode_block.py:88-103 | a history on a line reads back that line anywhere in its recorded span |
| OdeBlock.ConstantIsTotal | src/cascadoc/blocks/concentrated_blocks/ode_block.py:29-32 | a constant right-hand side never fails |
| Signals.Ramp | src/cascadoc/blocks/concentrated_blocks/function_helpers.py:29-41 | before the start the initial value, after the end (and not before the start) the final value; a division by zero exactly when a zero-width ramp is read at its one instant |
| Signals.RampEndpoints | src/cascadoc/blocks/concentrated_blocks/function_helpers.py:32-39 | a ramp of positive width takes its initial value at its start and its final value at its end |
| Signals.RampMonotone | src/cascadoc/blocks/concentrated_blocks/function_helpers.py:32-39 | a rising ramp never decreases in time |
| Signals.RampInside | src/cascadoc/blocks/concentrated_blocks/function_helpers.py:37-39 | inside the ramp the value lies on the line from `(start, initial)` to `(end, final)` |
| Signals.RampWithin | src/cascadoc/blocks/concentrated_blocks/function_helpers.py:32-39 | every value of a rising ramp lies between its initial and final values |
| Signals.StepIsSteepRamp | src/cascadoc/blocks/concentrated_blocks/function_helpers.py:21-39 | outside the ramp's interior, the step at `step_time` and the ramp starting at `step_time` agree |
| Signals.StepSignal | src/cascadoc/blocks/concentrated_blocks/function_helpers.py:21-26 | the step only ever takes its initial or final value, and when they differ it takes the initial value exactly before the step time |
| Signals.PyMod | src/cascadoc/blocks/concentrated_blocks/function_helpers.py:47 | Python's float remainder lies in `[0, p)` for a positive divisor and in `(p, 0]` for a negative one |
| Signals.PyModPeriodic | src/cascadoc/blocks/concentrated_blocks/function_helpers.py:47 | shifting the time by one period leaves the remainder unchanged |
| Signals.PyModFirstPeriod | src/cascadoc/blocks/concentrated_blocks/function_helpers.py:47 | within the first period of a positive length the remainder is the time itself |
| Signals.Pulse | src/cascadoc/blocks/concentrated_blocks/function_helpers.py:43-50 | a zero period raises; otherwise the value is always the low or the high value |
| Signals.PulsePeriodic | src/cascadoc/blocks/concentrated_blocks/function_helpers.py:46-48 | the pulse repeats with its period |
| Signals.PulseFirstPeriod | src/cascadoc/blocks/concentrated_blocks/function_helpers.py:46-48 | in the first period of a positive length the pulse is high exactly before `period * duty_cycle` |
| Signals.PidStep | src/cascadoc/blocks/concentrated_blocks/function_helpers.py:70-92 | the controller records the new error and time; with no positive stored time, or no time elapsed, the integral is kept and the output is proportional plus integral; otherwise the integral grows by the error times the elapsed interval and the output adds `kd` times the error's change over that interval |
| Signals.PidFirstCallProportional | src/cascadoc/blocks/concentrated_blocks/function_helpers.py:66-86 | the first call of a fresh controller outputs `kp` times the error |
| Signals.PidClockFromZeroLosesInterval | src/cascadoc/blocks/concentrated_blocks/function_helpers.py:68-80 | as written, for a pure integral controller with error 1 called at times 0 and 1, the second output is 0: the first interval is lost |
| Signals.PidStepFixed | src/cascadoc/blocks/concentrated_blocks/function_helpers.py:70-92 | as intended, the memory after a call is the error and time recorded and the interval since the previous call integrated; the first call, or one with no time elapsed, is proportional plus the stored integral; a later call adds `kd` times the error's change over the interval |
| Signals.PidDerivativeTracksRate | src/cascadoc/blocks/concentrated_blocks/function_helpers.py:78-86 | a pure derivative controller whose error changes at a constant rate outputs `kd` times that rate |
| Signals.PidFixedDerivativeTracksRate | src/cascadoc/blocks/concentrated_blocks/function_helpers.py:78-86 | the intended controller's derivative term likewise outputs `kd` times the error's rate of change |
| Signals.PidNext | src/cascadoc/blocks/concentrated_blocks/function_helpers.py:78-90 | the integral grows by the error times the interval since a previous call, and only for a positive interval; the error and time are recorded |
| Signals.PidRunIntegrates | src/cascadoc/blocks/concentrated_blocks/function_helpers.py:70-92 | as intended, over strictly increasing call times with a constant error, the integral is the error times the time elapsed since the first call, whatever the clock's origin |
| Signals.PidFixedKeepsFirstInterval | src/cascadoc/blocks/concentrated_blocks/function_helpers.py:68-80 | the intended controller, called at 0 and 1 with error 1, integrates the interval the one as written loses |
| Signals.MakeTable | src/cascadoc/blocks/concentrated_blocks/function_helpers.py:96-99 | the table is built exactly when the two lists have the same length, and otherwise raises |
| Signals.FindInterval | src/cascadoc/blocks/concentrated_blocks/function_helpers.py:103-104 | the interval found is the first one, from the starting index on, whose ends enclose `t`; none is found exactly when no interval encloses it |
| Signals.Lookup | src/cascadoc/blocks/concentrated_blocks/function_helpers.py:101-114 | an empty table has no value to return |
| Signals.LookupIsHistory | src/cascadoc/blocks/concentrated_blocks/function_helpers.py:101-114 | on strictly increasing times, the table reads exactly like a block history holding the same samples: first value before, last value after, linear interpolation between |
| Signals.LookupAfter | src/cascadoc/blocks/concentrated_blocks/function_helpers.py:110-114 | after every knot the table gives the history's answer, the last value |
| Signals.LookupBefore | src/cascadoc/blocks/concentrated_blocks/function_helpers.py:110-112 | at or before the first knot the table gives the history's answer, the first value |
| Signals.LookupInside | src/cascadoc/blocks/concentrated_blocks/function_helpers.py:103-108 | strictly after the first knot and within the table, the table gives the history's interpolated value |
| Signals.LookupInInterval | src/cascadoc/blocks/concentrated_blocks/function_helpers.py:103-108 | inside a found interval of positive length the table returns the linear interpolation between its two knots |
| Signals.LookupAtKnots | src/cascadoc/blocks/concentrated_blocks/function_helpers.py:101-114 | at each knot of a strictly increasing table the table returns that knot's value |
| Signals.RampIsLookup | src/cascadoc/blocks/concentrated_blocks/function_helpers.py:29-41 | a ramp of positive width reads exactly like the two-point table from its start to its end |
| FunBlock.Keys | src/cascadoc/blocks/concentrated_blocks/fun_block/fun_block.py:40 | an index is a key exactly when some item carries it |
| FunBlock.HashMesh | src/cascadoc/blocks/concentrated_blocks/fun_block/fun_block.py:14 | every coordinate maps to an index of the mesh |
| FunBlock.LastAt | src/cascadoc/blocks/concentrated_blocks/fun_block/fun_block.py:14 | the position found carries the coordinate and no later item does; nothing is found exactly when no item has the coordinate |
| FunBlock.Tabulate | src/cascadoc/blocks/concentrated_blocks/fun_block/fun_block.py:16 | one entry per node index, holding the function at that node's coordinate |
| FunBlock.New | src/cascadoc/blocks/concentrated_blocks/fun_block/fun_block.py:8-17 | a block is built exactly for the kinds `ON_S` and `ON_T`, keeping the mesh, the coordinate map and the tabulated values; any other kind raises |
| FunBlock.Call | src/cascadoc/blocks/concentrated_blocks/fun_block/fun_block.py:20-30 | giving both or neither of index and coordinate raises; an index lookup succeeds exactly for a tabulated index and returns its value; a coordinate off the mesh raises |
| FunBlock.GetMesh | src/cascadoc/blocks/concentrated_blocks/fun_block/fun_block.py:32-41 | one record per node in mesh order, with the node's index and value, the node coordinate on the block's axis and the fixed coordinate on the other |
| FunBlock.HashMeshLastWins | src/cascadoc/blocks/concentrated_blocks/fun_block/fun_block.py:14 | a coordinate is in the map exactly when some node has it, and it maps to the index of the last such node |
| FunBlock.DuplicateCoordinateExample | src/cascadoc/blocks/concentrated_blocks/fun_block/fun_block.py:14 | two nodes at one coordinate: the later index is kept |
| FunBlock.CallByIndex | src/cascadoc/blocks/concentrated_blocks/fun_block/fun_block.py:16-24 | looking a built block up by a node's index gives the function at that node's coordinate |
| FunBlock.CallByCoordinate | src/cascadoc/blocks/concentrated_blocks/fun_block/fun_block.py:16-30 | looking up by coordinate succeeds exactly when some node has it, and then gives the function at that coordinate |
| FunBlock.GetMeshAgreesWithCall | src/cascadoc/blocks/concentrated_blocks/fun_block/fun_block.py:20-41 | every record listed agrees with looking up its node by index and by coordinate |
| HypBlock.ConfigOf | src/cascadoc/blocks/distributed_blocks/hyp_block/hyp_block.py:7-14 | exactly one of `h` and `m` must be given, otherwise it raises; the frame and speeds are passed on; a non-zero `h` is passed on alone, otherwise `m` |
| HypBlock.New | src/cascadoc/blocks/distributed_blocks/hyp_block/hyp_block.py:6-20 | giving both or neither of `h` and `m` raises; a built block has no stored values, and its mesh is the one built from its configuration |
| HypBlock.AddIndexVal | src/cascadoc/blocks/distributed_blocks/hyp_block/hyp_block.py:23-24 | the value is stored under the index, replacing any earlier one; every other stored value is kept |
| HypBlock.Call | src/cascadoc/blocks/distributed_blocks/hyp_block/hyp_block.py:27-34 | giving both or neither of index and coordinate raises; an index asks the mesh for its node; a coordinate asks the mesh for its index |
| HypBlock.NodeRecords | src/cascadoc/blocks/distributed_blocks/hyp_block/hyp_block.py:36-44 | one record per mesh node, at the node's coordinates, carrying the stored value exactly when one is stored |
| HypBlock.AddThenList | src/cascadoc/blocks/distributed_blocks/hyp_block/hyp_block.py:23-44 | after storing a value, the listing shows it at that node and every other node's record is unchanged; a later store at the same index overrides |
| HypBlock.CallFindsMeshNodes | src/cascadoc/blocks/distributed_blocks/hyp_block/hyp_block.py:30-31 | the index path finds a node exactly for the mesh's nodes, at the lattice position of the index |
| HypBlock.FreshListsNodes | src/cascadoc/blocks/distributed_blocks/hyp_block/hyp_block.py:16-19 | a freshly built block lists every mesh node with no value stored |
| HypBlock.ConfigChoosesOne | src/cascadoc/blocks/distributed_blocks/hyp_block/hyp_block.py:7-14 | a block built from a non-zero `h` passes that `h` to the mesh, one built from `m` passes that `m`, and both or neither is an error |

## Left out

- Floating point: all arithmetic is exact `real`. `np.float64` casts, rounding errors and numpy's treatment of near-singular matrices are not modelled. `np.linalg.solve` is Cramer's rule, and singular means a determinant of exactly 0.
- Discretization.FromM: requires both wave speeds to be positive: with a zero speed numpy's division yields an infinity (the speeds are `np.float64`), which `real` cannot represent. Negative speeds are not modelled: the wave speeds are magnitudes throughout the source's use of them.
- Discretization.FromH: requires both wave speeds to be positive: with a zero speed numpy's division yields an infinity (the speeds are `np.float64`), which `real` cannot represent. Negative speeds are not modelled: the wave speeds are magnitudes throughout the source's use of them.
- Discretization.Setup: requires both wave speeds to be positive: with a zero speed numpy's division yields an infinity (the speeds are `np.float64`), which `real` cannot represent. Negative speeds are not modelled: the wave speeds are magnitudes throughout the source's use of them.
- CharacteristicMesh.Make: requires both wave speeds to be positive: with a zero speed numpy's division yields an infinity (the speeds are `np.float64`), which `real` cannot represent. Negative speeds are not modelled: the wave speeds are magnitudes throughout the source's use of them.
- LegacyMesh.Make: requires both wave speeds to be positive: with a zero speed numpy's division yields an infinity (the speeds are `np.float64`), which `real` cannot represent. Negative speeds are not modelled: the wave speeds are magnitudes throughout the source's use of them.
- HyperbolicBlock.Initialize: requires both wave speeds to be positive: with a zero speed numpy's division yields an infinity (the speeds are `np.float64`), which `real` cannot represent. Negative speeds are not modelled: the wave speeds are magnitudes throughout the source's use of them.
- HypBlock.New: requires both wave speeds to be positive: with a zero speed numpy's division yields an infinity (the speeds are `np.float64`), which `real` cannot represent. Negative speeds are not modelled: the wave speeds are magnitudes throughout the source's use of them.
- The `CharacteristicMesh` that `hyperbolic_block.py` imports from `src/cascadoc/blocks/distributed_blocks/dtype/characteristic_mesh.py` is not part of this model. Neither is the one `hyp_block.py` imports from its package `src/cascadoc/blocks/distributed_blocks/hyp_block/dtype`. The hyperbolic block and `HypBlock` are modelled over the mesh of `src/cascadoc_deepseek/blocks/distributed_blocks/dtype/characteristic_mesh.py`. That mesh's own `.characteristic` and `.base_mesh` modules are not part of this model either; the strict characteristic stands in for the former.
- LegacyMesh.LegacySetup: with `m = 0` the older mesh divides the numpy float `S1 - S0` by zero and gets infinite (or, in a frame of zero width, NaN) steps without raising. The model has no infinite `real`, so it reports the `ZeroDivisionError` of the current mesh's setup there.
- LegacyMesh.Make: for `m = 0` it inherits that error from `LegacyMesh.LegacySetup`; the mesh the source builds from infinite steps is not modelled.
- HyperbolicBlock.SolveOf: without a solution, the nodes are visited in the insertion order of the nested index loops over the ranges. For a mesh with nodes outside its ranges, which the constructor never builds, that order is not the dictionary's; `HyperbolicBlock.MissingSolutionHarmless` therefore requires a lattice mesh.
- `src/cascadoc/blocks/concentrated_blocks/base_concentrated_block.py` and `src/cascadoc/blocks/distributed_blocks/base_distributed_block.py` are not part of this model. The base classes of `src/cascadoc_deepseek` stand in for them.
- Console output: every `print`, including the warnings of `_collect_inputs`, is left out.
- `Connection.StubRead`: `get_value` of a boundary connection always returns `None`. The inputs that `_collect_inputs` gathers are therefore a parameter (`inputs`, `feed`) of the function and ODE block operations. `Connection.CollectInputs` models only how they are assembled.
- Sinusoid and noise blocks (`function_helpers.py:13-19,52-60`) need trigonometry and a random generator. The helper factories of `ode_helpers.py` and `hyperbolic_helpers.py` add nothing beyond one expression or a configuration dictionary.
- Callables of the function and ODE blocks that may raise are modelled as functions returning `Option` (`None` when the call raises). The source wraps any such exception in a `RuntimeError` whose message ends with the original message; the model keeps the kind and drops that text. The derivative of `ConcentratedBlock` returns a `Result`, and its error propagates unchanged. The coefficient, boundary and initial callables of the hyperbolic block are modelled as total functions.
- `Signals.PidStep`: the controller's closure state (`integral`, `prev_error`, `prev_time`) is passed in and returned explicitly, instead of being captured by the Python closure.
- `Signals.Lookup`: requires the two lists to have equal length, which the factory checks (`Signals.MakeTable`) before the lookup function can exist. Its own contract states only the empty-table case; its values are stated by `Signals.LookupIsHistory`, `Signals.LookupAtKnots` and `Signals.LookupInInterval`.
- `OdeBlock.New`: the ODE state is a single real. The block's state before `initialize` is never read and is not stated.
- `History.ValueAt`: its own contract states only when there is a value at all; what that value is comes from `History.ValueAtClamps`, `History.ValueAtRecorded`, `History.ValueAtBetween`, `History.ValueAtLinear` and `History.ValueAtOnGraph`.
- `FunBlock.New`: the mesh dictionary is modelled as its items in insertion order, and the constructor requires their indices to be distinct, as the keys of a Python dictionary are. A `fun` that raises during tabulation is not modelled.
- `FunBlock.GetMesh`: requires every mesh index to have a tabulated value, which the constructor guarantees (`FunBlock.New`).
- `FunBlock.HashMesh`: its own contract states only that every coordinate maps to a mesh index; the inversion itself is `FunBlock.HashMeshLastWins`.
- `HypBlock.Call`: the coordinate path calls `mesher.get_indexes`, which is not shown, so that lookup is a parameter. The boundary half of `get_mesh` (`hyp_block.py:45-53`) depends on it too and is left out.
- `HypBlock.ConfigOf`: an `h` of exactly 0 falls back to `m`, which is `None` because `h` was given. The source then stores the key `m` with the value `None`, and the mesh fails with a `TypeError` when it divides by it. The model has no key-with-`None`, so its mesh fails with the missing-key `ValueError` instead: an error in both, of a different kind.
- Plotting and visualisation (`mesh_visualizer.py`, `ploter.py`, the plot-only `distributed_blocks/hyp_block.py` and the `plot` methods of the meshes) have no behaviour to model. The same holds for `sam.py` (file system and `ast`) and for packaging.
- Accuracy and convergence of Runge-Kutta 4 are not claimed. The step is stated exactly for constant, time-only and linear right-hand sides.
- `test/test_hyp_mesh.py` reads `mesh.center_nodes`, which no mesh in view defines; its reference node set is not modelled.

## Findings

| source | as written | input that shows it | evidently intended | confidence | as-written member | corrected member |
|---|---|---|---|---|---|---|
| src/cascadoc_deepseek/blocks/distributed_blocks/dtype/_characteristic_mesh.py:69-76 | an intersection coordinate is kept only if it is truthy, so a hit whose returned coordinate is `0.0` is dropped | frame `[0,10] x [0,5]`, centre `(5, 5)`, `step = dt = 1`: the hit `(0, 0)` is dropped, and the lattice points at offsets -5..-1 are lost | keep every hit that is not `None` | high, not executed | LegacyMesh.TruthinessDropsNodes | LegacyMesh.IntendedEmitsLatticePoint |
| src/cascadoc/blocks/distributed_blocks/dtype/characteristic.py:60-105 | hits along `s` are computed when `abs(step) >= 1e-10`, but `_calculate_k` measures along `s` only when `abs(step) > 1e-10` and otherwise divides by `dt` | `step = 1e-10`, `dt = 0`, centre `(5, 2.5)` in `[0,10] x [0,5]`: the hit `(0, 2.5)` exists and its offset divides by zero, so construction raises | measure along `s` under the same guard as the hit test | medium, not executed | StrictCharacteristic.HorizontalLineAtEps | StrictCharacteristic.IntendedEmitsLatticePoint |
| src/cascadoc/blocks/concentrated_blocks/function_block.py:43-55 | an unknown `function_type` passes the constructor and fails only at the first evaluation | `FunctionBlock("invalid", 5.0, "invalid_type")` constructs; the test at `tests/concentrated_blocks/test_function_block.py` expects a `ValueError` | reject unknown kinds at construction | high, not executed | FunctionBlock.UnknownKindAccepted | FunctionBlock.NewIntended |
| src/cascadoc/blocks/concentrated_blocks/function_block.py:57-72 | `initialize` discards the value it computes, so the first sample holds the constructor's `0.0` | constant 5.0, `t0 = 0`: the history is `[(0, 0.0)]` | record the computed value | high, not executed | FunctionBlock.FreshInitializeRecordsZero | FunctionBlock.IntendedInitializeOnGraph |
| src/cascadoc/blocks/concentrated_blocks/function_block.py:117-121 | `step(t, dt)` records `f(t)` under the time `t + dt` | `t ** 2` initialised at 0, stepped at 0, 0.1, 0.2 with `dt = 0.1`: the read-back at 0.15 is 0.005, not 0.0225 to two places | record `f(t)` under `t` | high, not executed | FunctionBlock.SquareReadBackAsWritten | FunctionBlock.IntendedRunReadsBack |
| src/cascadoc/blocks/concentrated_blocks/function_helpers.py:68-80 | "no previous call" is encoded as `prev_time = 0`, so a clock that starts at 0 loses the first interval | `ki = 1`, error 1, calls at 0 and 1: the second output is 0 instead of 1 | mark "no previous call" explicitly | medium, not executed | Signals.PidClockFromZeroLosesInterval | Signals.PidRunIntegrates |
