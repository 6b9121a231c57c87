# celeri core bookkeeping, modelled in Dafny

celeri estimates fault slip rates and block motions from geodetic velocities.
It does this by assembling and solving one linear system. This project models
the discrete part of that pipeline in `celeri.py`. Everything here is computed
from indices, flags and tables rather than from elastic physics:

- **Mesh side sharing** (`get_shared_sides`): the n x 3 table of neighbouring
  triangular elements.
- **The ordered boundary walk** (`get_ordered_edge_nodes`), with meshes as
  objects whose `ordered_edge_nodes` field the walk sets.
- **The unweighted smoothing operator** (`get_tri_smoothing_matrix_simple`).
- **Interleaving**: `interleave2`, `interleave3`.
- **Index bookkeeping of the linear system**: the block-rotation constraint
  operator, `station_row_keep`, `merge_geodetic_data` and
  `slip_rate_constraints`.
- **Segment-table transforms**: `locking_depth_manager`,
  `zero_mesh_segment_locking_depth`, `order_endpoints_sphere`, the periodic
  longitude separation and plate-carree midpoint of `process_segment`,
  `wrap2360` and `latitude_to_colatitude`.
- **Block bookkeeping** in `assign_block_labels`: `polygon_area`, the
  unprocessed segment indices, the `area_plate_carree` column and the reordering
  of block rows by label.

Modules follow these areas:

| Module | File |
|---|---|
| `Wrappers` | `wrappers.dfy` |
| `FlatIndex` | `flat_index.dfy` (the `n_dim * i + t` and `s * n + e` index maps) |
| `MeshAdjacency` | `mesh_adjacency.dfy` |
| `EdgeNodes` | `edge_nodes.dfy` |
| `Smoothing` | `smoothing.dfy` |
| `Interleave` | `interleave.dfy` |
| `Operators` | `operators.dfy` |
| `Segments` | `segments.dfy` |
| `Blocks` | `blocks.dfy` |

How the source's types are modelled:

- Code that fills arrays in loops is written as methods over `array`/`array2`, with loop invariants.
- A table the source copies and then edits becomes a method that returns a fresh array.
- Pure numpy expressions become functions over sequences.
- Operator entries 0, 1, 3 and -1 are exact integers.
- Coordinates, rates and areas are reals.
- Where numpy raises an exception, the model returns `None`.

Two places where the docstring and the code disagree; the model follows the code:

- `zero_mesh_segment_locking_depth` tests `patch_file_name <= len(meshes)`, although its docstring says "less than".
- `order_endpoints_sphere` uses the cross-product test, although its docstring says a longitude test replaced it.

## Model

| member | source | states |
|---|---|---|
| FlatIndex.UnravelStacked | celeri.py:1822-1825 | Fortran-order unravelling of a stacked position p over n rows gives element p % n and side p / n, and stacking p % n as side p / n gives p back |
| FlatIndex.FlatInjective | celeri.py:1984-1987 | Distinct (element, component) pairs have distinct flat indices n_dim * i + t |
| FlatIndex.IdxCovers | celeri.py:619-622 | Every row below 3m is 3i + r for some block slot i < m and r < 3 |
| MeshAdjacency.SidesAt | celeri.py:1806-1809 | Position s * n + e of the stacked sorted sides holds side s of element e |
| MeshAdjacency.GetSharedSides | celeri.py:1786-1832 | Entry (e, s) of the returned n x 3 table is the element owning the paired occurrence of side s of e, or -1 |
| MeshAdjacency.PairSides | celeri.py:1812-1830 | The table starts at -1; for each side whose first and last occurrences differ, each of the two cells receives the other occurrence's element |
| MeshAdjacency.Partner | celeri.py:1812-1820 | A paired position holds the same side at another position |
| MeshAdjacency.PartnerAbsent | celeri.py:1812-1817 | A stacked side stays unpaired iff it occurs nowhere else or is a middle occurrence of three or more |
| MeshAdjacency.PartnerSymmetric | celeri.py:1827-1830 | Pairing of stacked positions is an involution |
| MeshAdjacency.CountOne | celeri.py:1812-1817 | A side occurs once iff no other stacked position holds it |
| MeshAdjacency.MiddleNeedsThree | celeri.py:1812-1817 | A side with occurrences both before and after a position occurs at least three times |
| MeshAdjacency.NeighbourAbsent | celeri.py:1786-1832 | An entry is -1 iff its side occurs once, or it is neither the first nor the last of several occurrences |
| MeshAdjacency.NeighbourAbsentIffUnshared | celeri.py:1786-1832 | When no side is in more than two elements, an entry is -1 iff its side is not shared, as the docstring describes |
| MeshAdjacency.NeighbourSymmetric | celeri.py:1827-1830 | If side s of a points to b, some side t of b has the same vertex pair and points back to a |
| MeshAdjacency.PairWritesDisjoint | celeri.py:1827-1830 | The cells written for two different shared sides are disjoint, so the visiting order does not change the table |
| EdgeNodes.Insert | celeri.py:2007 | Inserting into a strictly sorted side list keeps it strictly sorted and adds exactly x |
| EdgeNodes.UniqueOnceUpTo | celeri.py:2007-2008 | The sorted distinct sides of a prefix whose count in the whole stack is 1 |
| EdgeNodes.BoundaryEdgesExact | celeri.py:2003-2008 | The boundary edges are strictly sorted and are exactly the sides occurring once |
| EdgeNodes.FirstBoundaryEdgeSmallest | celeri.py:2011 | The walk's first row is the lexicographically smallest boundary edge |
| EdgeNodes.Candidates | celeri.py:2014-2019 | Each candidate cell lies outside the last row and holds the node in the column it names |
| EdgeNodes.CandidatesComplete | celeri.py:2014-2019 | Every cell outside the last row holding the node is a candidate |
| EdgeNodes.CandidateListed | celeri.py:2014-2019 | A single cell outside the last row that holds the node is among the candidates |
| EdgeNodes.CandidatesOrdered | celeri.py:2014-2019 | The candidates come in strictly increasing row-major order, the order `np.where` lists them |
| EdgeNodes.CandidatesCount | celeri.py:2014-2019 | Without self-loops, the candidate cells are as many as the other rows touching the node |
| EdgeNodes.UniqueCandidate | celeri.py:2014-2021 | On a two-regular boundary each step has exactly one candidate |
| EdgeNodes.NoCandidateNotRegular | celeri.py:2014-2021 | A step with zero or several candidates implies the boundary is not two-regular |
| EdgeNodes.NextStep | celeri.py:2014-2026 | A step fails iff the candidate count is not 1; otherwise the row is another boundary edge, read from the current node |
| EdgeNodes.OrderEdgeNodes | celeri.py:2010-2029 | An empty boundary fails; a non-empty two-regular boundary succeeds; success gives one row per edge forming a walk from the smallest edge |
| EdgeNodes.WalkStep | celeri.py:2026-2029 | Appending a row that starts at the previous row's end, on a different edge, extends the walk |
| EdgeNodes.Mesh.SetOrderedEdgeNodes | celeri.py:2002-2029 | On success the mesh's ordered_edge_nodes has one row per boundary edge and is a walk from the smallest edge, each row on a boundary edge different from the row before it; success is guaranteed on a two-regular boundary |
| EdgeNodes.GetOrderedEdgeNodes | celeri.py:1992-2029 | Success leaves every mesh with an ordered boundary: one row per boundary edge, a walk from the smallest edge, each row on a different edge from the row before; success is guaranteed when every boundary is non-empty and two-regular |
| Smoothing.SetNeighbourBlock | celeri.py:1985-1988 | Writes -1 at exactly the n_dim pairs (n_dim*i+t, n_dim*b+t) and nothing else |
| Smoothing.SmoothingPass | celeri.py:1982-1988 | Pass (j, i) keeps all entries in {3, -1, 0} and extends the partial operator by that pass's writes |
| Smoothing.SmoothingColumn | celeri.py:1983-1988 | The inner loop over elements completes column j of the passes |
| Smoothing.PassStep | celeri.py:1982-1988 | One pass's writes turn the partial matrix before (j, i) into the one after it |
| Smoothing.AllPassesDone | celeri.py:1982-1988 | After all passes the partial operator is the intended one |
| Smoothing.TriSmoothingMatrixSimple | celeri.py:1963-1989 | (n_dim n)-square; every entry is 3, -1 or 0; with no self-neighbour: 3 on the diagonal, -1 for each neighbour's matching component, 0 elsewhere |
| Interleave.Strided | celeri.py:1267-1281 | `s[start::step]`: its length is the slice length, and entry k is s[start + k*step] |
| Interleave.Interleave2Fits | celeri.py:1267-1271 | The slice assignments of interleave2 fit iff len(b) <= len(a) <= len(b) + 1 |
| Interleave.Interleave3Fits | celeri.py:1274-1281 | The slice assignments of interleave3 fit iff len(c) <= len(b) <= len(a) <= len(c) + 1 |
| Interleave.Interleave2 | celeri.py:1267-1271 | Fails iff the lengths do not fit; otherwise a[j] is at 2j, b[j] at 2j+1, and even/odd positions give a and b back |
| Interleave.Deinterleave2 | celeri.py:1267-1271 | The even and odd positions of an interleaving are its two inputs |
| Interleave.Interleave3 | celeri.py:1274-1281 | Fails iff the lengths do not fit; otherwise a, b, c sit at 3j, 3j+1, 3j+2, and the three strided slices give them back |
| Interleave.Fill3 | celeri.py:1278-1280 | The three slice assignments place a, b and c at offsets 0, 1 and 2 modulo 3 |
| Interleave.Deinterleave3 | celeri.py:1274-1281 | The three strided slices of an interleaving are its three inputs |
| Operators.FlaggedIndices | celeri.py:617 | `np.where(flags == 1)[0]`: strictly increasing, in range, and i is listed iff flags[i] == 1 |
| Operators.FlaggedIndicesSingle | celeri.py:617 | A flag vector with a single 1 selects exactly that position |
| Operators.SetIdentityBlock | celeri.py:620-623 | Writes the 3x3 identity into rows 3i..3i+2 and columns 3b..3b+2 (1 on the diagonal, 0 elsewhere) and leaves every other entry alone |
| Operators.BlockConstraintPartials | celeri.py:611-624 | Rows 3i+r have a single 1, in column 3·idx[i]+r, where idx lists the blocks with rotation_flag 1 |
| Operators.BlockConstraintRowsCovered | celeri.py:619-623 | Every row of the operator is the row of some flagged block |
| Operators.SumAbs | celeri.py:1194 | Non-negative, and zero iff every vertical velocity is zero |
| Operators.HorizontalRows | celeri.py:1195-1198 | Sorted, below n, and j is kept iff j % 3 != 2 |
| Operators.StationRowKeepAsWritten | celeri.py:1186-1201 | Without vertical velocity: the horizontal rows; otherwise `arange(0, sz_rotation[1])` |
| Operators.StationRowKeepPastRows | celeri.py:1199-1200 | With 6 rows and 9 columns, the as-written selection keeps index 8, past the last row |
| Operators.StationRowKeep | celeri.py:1186-1201 | Every kept index is a row; with no vertical velocity exactly the rows j with j % 3 != 2, otherwise all rows in order |
| Operators.MergeGeodeticData | celeri.py:509-539 | Station columns are copied; coordinates are stations then InSAR points; counts match |
| Operators.SarCoordinateIdxPicksSar | celeri.py:536-538 | `sar_coordinate_idx[k]` is the coordinate row of InSAR point k and never a station row |
| Operators.ConcatFlags | celeri.py:893-895 | Position c*n+i of the concatenated flags is component c's flag of segment i |
| Operators.SlipRateConstraintsAsWritten | celeri.py:892-912 | Kept positions are the flagged stack positions, and the partials rows kept are the same numbers |
| Operators.SlipRateRowMismatch | celeri.py:892-912 | The strike-slip constraint of segment 1 of 2 keeps its rate but partials row 1, which is dip-slip of segment 0 (its own row is 3) |
| Operators.SlipRateConstraints | celeri.py:892-912 | Kept positions are the flagged stack positions, with one rate, sigma and partials row each |
| Operators.SlipRateConstraintAgrees | celeri.py:734 | Each kept constraint is a flagged component c of a segment i, with that component's rate and sigma and partials row 3i+c |
| Operators.SlipRateConstraintKept | celeri.py:848-853 | Every flagged component is kept, with its own rate and sigma and partials row 3i+c |
| Segments.ManagedRowCases | celeri.py:224-246 | Only the locking depth changes: the override value if the override is "yes", else the command depth for flags 2-5, else the row's own depth |
| Segments.CopyTable | celeri.py:230 | A fresh table equal to the input |
| Segments.SetDepthWhereFlag | celeri.py:231-242 | In place, every row with the flag gets the value and every other row is unchanged |
| Segments.LockingDepthManager | celeri.py:224-246 | A fresh table of managed rows; the input is not written |
| Segments.ManagedTableAsWritten | celeri.py:224-246 | The code as written raises exactly when the override flag is "yes"; otherwise it returns the managed rows, unchanged outside flags 2-5 |
| Segments.OverrideRaises | celeri.py:244-245 | With the override flag "yes" the code as written raises, while the intended manager gives every row the override depth |
| Segments.ZeroMeshSegmentLockingDepth | celeri.py:249-266 | A fresh table in which exactly the rows tracing a mesh (patch_file_name <= number of meshes) have depth 0, and nothing else differs |
| Segments.MeshRowsEndAtZero | celeri.py:249-266 | After managing and zeroing, a mesh-tracing row has depth 0 whatever the command says, and the other rows keep their managed depth |
| Segments.OrderedRowInvolution | celeri.py:282-289 | The swap test is unchanged by the swap, so ordering twice restores the row |
| Segments.OrderedRowSwaps | celeri.py:282-289 | A swapped row exchanges exactly the endpoint lon/lat; Cartesian and other columns stay |
| Segments.OrderEndpointsSphere | celeri.py:269-290 | A fresh table, row k ordered from input row k |
| Segments.PeriodicLonSeparationRange | celeri.py:358-361 | The separation changes by a whole turn or not at all, and lies in [-180, 180] iff sep lies in [-540, 540] |
| Segments.PeriodicLonSeparationAntisymmetric | celeri.py:359-361 | Reversing the segment negates the periodic separation |
| Segments.MidLonPlateCarreeSymmetric | celeri.py:362-364 | The midpoint is endpoint-order independent up to a turn, and is the average for endpoints under a half turn apart |
| Segments.Wrap360Properties | celeri.py:204-206 | Wrapping names the same meridian, maps [-360, 360) into [0, 360), and is idempotent from -360 on |
| Segments.Wrap2360 | celeri.py:204-206 | In place, every entry is wrapped |
| Segments.ColatitudeInvolution | celeri.py:1289-1293 | The scalar branch maps [-90, 90] into itself and undoes itself on (-90, 90] |
| Segments.ColatitudeBranchesAgree | celeri.py:1289-1296 | The array and scalar branches agree iff lat <= 90 or lat == 135; above 90 the array branch gives lat - 180 |
| Segments.LatitudeToColatitude | celeri.py:1284-1297 | One element: a fresh scalar result and the argument is untouched; otherwise both passes are applied in place and the argument is returned |
| Blocks.Roll | celeri.py:392 | `np.roll(v, 1)`: entry i is v at the previous index, cyclically |
| Blocks.PolygonArea | celeri.py:388-392 | The area is non-negative |
| Blocks.ShoelaceSum | celeri.py:392 | The two dot products differ by the sum of the cross terms x_i y_{i-1} - y_i x_{i-1} |
| Blocks.PolygonAreaIsShoelace | celeri.py:388-392 | polygon_area is half the absolute sum of the cyclic cross terms |
| Blocks.PolygonAreaRotation | celeri.py:388-392 | Starting the ring at another vertex does not change the area |
| Blocks.PolygonAreaReversal | celeri.py:388-392 | Traversing the ring in the other direction does not change the area |
| Blocks.TriangleArea | celeri.py:388-392 | The unit right triangle has area 1/2 and the empty ring 0 |
| Blocks.RingArea | celeri.py:426-427 | A closure polygon's area is non-negative |
| Blocks.UnprocessedIndices | celeri.py:415-418 | Sorted, distinct, in range, and i is listed iff its west or east label is negative |
| Blocks.AreaPlateCarree | celeri.py:423-427 | Fails iff there are more polygons than blocks; otherwise entry i is polygon i's area, and -1 beyond the polygons |
| Blocks.SortOrder | celeri.py:438-442 | Every row index exactly once, ascending by label, ties in original order |
| Blocks.ReorderBlocks | celeri.py:438-442 | Row k of the result is the input row at SortOrder position k |
| Blocks.ReorderBlocksSorted | celeri.py:438-443 | Labels are non-decreasing, equal labels keep their order, and the rows are a permutation of the input |
| Blocks.AssignBlockLabelsAsWritten | celeri.py:423-443 | Output row k carries the area of the polygon numbered by its old row index |
| Blocks.AreaTravelsWithOldRow | celeri.py:423-443 | With labels [1, 0], the row labelled 0 holds polygon 1's area |
| Blocks.AssignBlockLabels | celeri.py:423-443 | Output row k carries polygon k's area and the k-th label in sorted order |
| Blocks.AssignBlockLabelsAreaMatchesLabel | celeri.py:423-443 | When the labels are a permutation, each row's area is that of the polygon its label names |

## Left out

- The block-closure engine (`celeri_closure`) is not part of this model. Its outputs are inputs here: the segment labels, the polygon vertex rings and the labels of block interior points.
- Elastic and kinematic physics is not modelled. This covers:
  - the Okada and cutde displacements, and the Mogi source;
  - the strain-rate, rotation and TDE operators;
  - the numeric entries of the fault slip-rate partials (only their row layout is used);
  - the weighted smoothing matrix and shared-side distances;
  - pyproj geodesy, covariance propagation and `sph2cart`.
  They are floating-point numerics over external libraries.
- File reading, logging, plotting, `process_sar`, `process_station` and the notebook driver are left out. They are I/O or bodies of external library calls.
- Floating-point rounding is not modelled. Reals are exact.
- `block_constraints` is modelled only through its operator and its index (`np.where(rotation_flag == 1)`). The data and sigma vectors it converts with pyproj are left out.
- `process_segment` is modelled only for the separation and plate-carree midpoint of the longitudes. The mid-latitude great-circle search, centroids and Cartesian conversion are left out.
- `latitude_to_colatitude`: a NaN latitude is not modelled.
- `lil_matrix` and `np.zeros` operators are dense `array2<int>`. Sparsity is not modelled.
- `locking_depth_manager`'s override line assigns to a read-only pandas property (see Findings). The model follows the evident intent, setting the override depth on every row.
- Blocks.AreaPlateCarree: when there are more polygons than blocks, the source has already written the first areas before raising. The model returns None and keeps nothing.
- EdgeNodes.Mesh.SetOrderedEdgeNodes: when the walk raises, the source has already replaced `ordered_edge_nodes` with a partly filled array. The model leaves the field unchanged.
- EdgeNodes.OrderEdgeNodes: success and a walk are proved. That the walk visits every boundary edge once when the boundary is a single cycle is not proved.
- Smoothing.TriSmoothingMatrixSimple: the exact entries are stated only when no element lists itself as a neighbour. `share` is required to hold -1 or element indices, as `get_shared_sides` produces (a larger index raises in the source).
- MeshAdjacency.PairSides: visits shared sides in first-occurrence order rather than `np.unique`'s lexicographic order. PairWritesDisjoint shows that the two orders write the same table.
- FlatIndex.Stacked: computed by repeated addition. It agrees with `s * n + e` (UnravelStacked) and is otherwise the same map.

## Findings

| source | as written | input that shows it | evidently intended | confidence | as-written member | corrected member |
|---|---|---|---|---|---|---|
| celeri.py:892-912 | `slip_rate_constraints` selects rows of the 3n-row partials with the stacked flag positions `c * n + i`. The partials put component c of segment i at row `3 * i + c` (734, 848-853) | Two segments; only segment 1 has a strike-slip constraint. Position 1 is kept, so the rate of segment 1 is paired with partials row 1, the dip-slip row of segment 0; the right row is 3 | For stack position `c * n + i`, keep partials row `3 * i + c` | not executed | Operators.SlipRateConstraintsAsWritten, Operators.SlipRateRowMismatch | Operators.SlipRateConstraints, Operators.SlipRateConstraintAgrees |
| celeri.py:423-443 | `area_plate_carree` is written by polygon index into the block rows in input order. The rows are then reordered by `block_label`, and each area travels with its old row | Two blocks with labels [1, 0]. After sorting, the row labelled 0 holds the area of polygon 1 | Each block row holds the area of the polygon it is labelled with | not executed | Blocks.AssignBlockLabelsAsWritten, Blocks.AreaTravelsWithOldRow | Blocks.AssignBlockLabels, Blocks.AssignBlockLabelsAreaMatchesLabel |
| celeri.py:244-245 | With the override flag "yes", `segment.locking_depth.values = command.locking_depth_override_value` assigns to `Series.values`, a property without a setter, so the call raises | Any command with `locking_depth_override_flag == "yes"` | Every row's locking depth becomes the override value | not executed (depends on pandas' `Series.values` having no setter) | Segments.ManagedTableAsWritten, Segments.OverrideRaises | Segments.LockingDepthManager, Segments.ManagedRowCases |
| celeri.py:1199-1200 | With a vertical velocity, `station_row_keep` is `np.arange(0, sz_rotation[1])`, a range over the operator's columns used as row indices | One station with up velocity 1.0; 6 rows, 9 columns. Index 8 is kept, past the last row 5 | `np.arange(0, sz_rotation[0])`: every row | not executed | Operators.StationRowKeepAsWritten, Operators.StationRowKeepPastRows | Operators.StationRowKeep |
