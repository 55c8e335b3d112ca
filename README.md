# CellHolderGenerator core, modelled in Dafny

CellHolderGenerator designs a holder plate for cylindrical battery cells.
Given a grid of `series` columns by `parallel` rows, it works out the
enclosure size. It draws the outer rectangle and one circular hole per cell,
square or honeycomb. It extrudes that outline into a closed triangle mesh and
writes the mesh as an ASCII STL file next to the executable. It also lays out
the busbar outlines that join the columns in series.

This project models that core:

- `Vector2`, `Vector3` (`vec2.dfy`, `vec3.dfy`): the point types and their
  operators, with their algebraic laws.
- `MeshTypes` (`mesh.dfy`): faces as index triples and the mesh as vertex and
  face lists.
- `CellLayout` (`cell_layout.dfy`): the fit check `fitRect`, which is closed-form
  arithmetic, and the ring builder `rectangleFixed`.
  - The ring builder is imperative: row and column loops, a sampling loop per
    hole, and an in-place `std::reverse` on an array.
  - It is proved equal to the specification `RingSet`.
- `Extrusion` (`application.cpp`): the mesh half of `Application::run`.
  - The rings are built at the width and height `fitRect` requires.
  - The rings are flattened to a vertex list, which is lifted into a bottom and a top copy.
  - The cap faces come from a triangulation. Side walls are stitched around every ring.
  - Every loop is a method proved against a function on sequences. The face
    counts and "every face index below 2N" are proved on those functions.
- `Busbars` (`dxf_exporter.cpp`): the cell centroids, the column groups with
  their kinds and layers, and one closed polyline per group.
  - On a square grid each polyline is a rectangle; on a honeycomb grid it is a
    path that follows the rows.
  - The min/max accumulators are proved to compute the least and greatest
    coordinate, whatever order they visit the cells in.
- `StlExport` (`stl_exporter.cpp`):
  - the output directory taken from the executable path;
  - the face filter with its unsigned casts;
  - the sequence of STL lines, one seven-line facet per face that passes the filter.

Coordinates are `real`. `cos`, `sin` and `sqrt` are function parameters.
`M_PI`, the honeycomb factor 0.86602540378 and the 1e30 sentinels are real
constants. C++ `int()` truncation and the `uint32_t` casts are written out
explicitly.

## Model

| member | source | states |
|---|---|---|
| Vector2.Origin | CellHolderGenerator/vec2.cpp:3 | the default point is the identity of addition |
| Vector2.Add | CellHolderGenerator/vec2.cpp:5 | the sum less b gives back a, componentwise |
| Vector2.Sub | CellHolderGenerator/vec2.cpp:6 | the difference plus b gives back a |
| Vector2.AddCommutes | CellHolderGenerator/vec2.cpp:5 | a + b == b + a |
| Vector2.AddThenSub | CellHolderGenerator/vec2.cpp:5-6 | (a + b) - b == a |
| Vector2.SubSelf | CellHolderGenerator/vec2.cpp:6 | a - a is the origin |
| Vector3.Origin | CellHolderGenerator/vec3.cpp:4 | the default vector is the identity of addition |
| Vector3.Add | CellHolderGenerator/vec3.cpp:6 | the sum less b gives back a, componentwise |
| Vector3.Sub | CellHolderGenerator/vec3.cpp:7 | the difference plus b gives back a |
| Vector3.Cross | CellHolderGenerator/vec3.cpp:8 | the cross product is orthogonal to both arguments |
| Vector3.Normalize | CellHolderGenerator/vec3.cpp:9-12 | a non-positive length gives the origin, and the zero vector always normalizes to the origin |
| Vector3.AddThenSub | CellHolderGenerator/vec3.cpp:6-7 | (a + b) - b == a |
| Vector3.SubSelf | CellHolderGenerator/vec3.cpp:7 | a - a is the origin |
| Vector3.CrossAnticommutes | CellHolderGenerator/vec3.cpp:8 | cross(a, b) == -cross(b, a) |
| Vector3.CrossSelf | CellHolderGenerator/vec3.cpp:8 | cross(a, a) is the origin |
| CellLayout.Trunc | CellHolderGenerator/cell_layout.cpp:24 | int() of a float truncates toward zero: the result is within 1 of x, on the side of zero |
| CellLayout.StepsIn | CellHolderGenerator/cell_layout.cpp:24-27 | std::max(0, int(room / step)) is never negative |
| CellLayout.NonNegative | CellHolderGenerator/cell_layout.cpp:31-32 | max(0, d) is non-negative, at least d, and either 0 or d |
| CellLayout.FitRect | CellHolderGenerator/cell_layout.cpp:5-33 | the required width and height use the pitch and row-step formulas; fits holds exactly when both fit; each deficit is non-negative, zero exactly when that axis fits, and otherwise the overshoot; a fitting axis keeps the requested count, and a changed count is never negative |
| CellLayout.StepsInIsLargest | CellHolderGenerator/cell_layout.cpp:24-27 | for a positive step and room ≥ 0, n steps fit exactly when n ≤ StepsIn |
| CellLayout.OverflowingAxis | CellHolderGenerator/cell_layout.cpp:22-28 | when n steps overflow, the proposed count is below n and fits, and one more does not |
| CellLayout.MaxSeriesFits | CellHolderGenerator/cell_layout.cpp:17-24 | when the width overflows and has room for the walls, maxSeries is below series, its required width fits, and one column more does not |
| CellLayout.MaxParallelFits | CellHolderGenerator/cell_layout.cpp:18-27 | the same for maxParallel against the height, with the row step of the mode |
| CellLayout.RefitFits | CellHolderGenerator/cell_layout.cpp:15-32 | re-checking the proposed maxSeries x maxParallel grid in the same rectangle reports that it fits |
| CellLayout.ReferenceConfiguration | CellHolderGenerator/cell_layout.cpp:5-33 | 10x4 honeycomb cells of 21.4 mm fit 460x140; 30 columns do not, with a positive width deficit and a proposal of 20 columns |
| CellLayout.ReversedAt | CellHolderGenerator/cell_layout.cpp:67 | point k of the reversed sequence is point n-1-k of the original |
| CellLayout.ReverseInPlace | CellHolderGenerator/cell_layout.cpp:67 | std::reverse leaves the array as the reversal of its old contents |
| CellLayout.SampleHole | CellHolderGenerator/cell_layout.cpp:60-67 | the hole holds the segs circle samples in increasing angle, then reversed |
| CellLayout.PlaceHole | CellHolderGenerator/cell_layout.cpp:56-68 | the body of the column loop yields exactly Hole(row, col): its centre, shifted half a pitch on odd honeycomb rows, then its reversed circle samples |
| CellLayout.HoleLength | CellHolderGenerator/cell_layout.cpp:60-67 | every hole ring has exactly segs points |
| CellLayout.RingSetShape | CellHolderGenerator/cell_layout.cpp:51-70 | for every grid, empty ones included, there are 1 + series*parallel rings, ring 0 is (0,0),(w,0),(w,h),(0,h), and every later ring has segs points |
| CellLayout.HolesSnoc | CellHolderGenerator/cell_layout.cpp:54-70 | visiting (row, col) appends exactly that cell's hole: the order is row-major |
| CellLayout.CellRing | CellHolderGenerator/cell_layout.cpp:52-70 | for a cell of the grid and k < segs: there are 1 + series*parallel rings; ring 0 is (0,0),(w,0),(w,h),(0,h); cell (row, col) is ring 1 + row*series + col with segs points; its point k is circle sample segs-1-k around x = wall + (col+1/2)pitch (+pitch/2 on odd honeycomb rows), y = wall + (row+1/2)rowStep |
| CellLayout.RectangleFixed | CellHolderGenerator/cell_layout.cpp:35-73 | the nested loops return exactly RingSet: the rectangle, then every cell's reversed circle in row-major order |
| CellLayout.Passes | CellHolderGenerator/cell_layout.cpp:54-55 | a counting loop up to a signed bound runs no times for a bound ≤ 0 and n times for n ≥ 0 |
| CellLayout.RectangleFixedSigned | CellHolderGenerator/cell_layout.cpp:35-73 | over int counts: no result exactly when 1 + series*parallel < 0 (ring reserve) or segs < 0 with at least one cell (hole reserve); otherwise RingSet over the loops' pass counts, which is the rectangle alone when series or parallel is ≤ 0, and 1 + series*parallel rings when both are positive |
| Extrusion.FlattenSize | CellHolderGenerator/application.cpp:48-52 | rings of equal size k flatten to (ring count)*k points |
| Extrusion.FlattenSlice | CellHolderGenerator/application.cpp:48-52 | ring h of equal-size rings is the slice [h*k, h*k + k) of the vertex list |
| Extrusion.RingVertexOffsets | CellHolderGenerator/application.cpp:48-52 | with a 4-point rectangle first, the list has 4 + holes*segs points; the rectangle comes first, and hole h is the slice starting at 4 + h*segs |
| Extrusion.FlattenRings | CellHolderGenerator/application.cpp:48-52 | the copy loop yields the rings' points in ring order |
| Extrusion.LiftVertices | CellHolderGenerator/application.cpp:54-61 | 2N vertices: vertex i is point i at z = 0, and vertex N+i is point i at z = wall height |
| Extrusion.CapFacesCount | CellHolderGenerator/application.cpp:63-68 | two cap faces per complete triple; a trailing partial triple adds none |
| Extrusion.CapFacesAt | CellHolderGenerator/application.cpp:63-68 | triple t gives face 2t = (c, b, a) and then face 2t+1 = (a+N, b+N, c+N) |
| Extrusion.CapFacesWithin | CellHolderGenerator/application.cpp:63-68 | triangulation indices below N give cap indices below 2N |
| Extrusion.CapFacesLayers | CellHolderGenerator/application.cpp:63-68 | bottom faces index the bottom copy [0, N), and top faces the top copy [N, 2N) |
| Extrusion.EmitCaps | CellHolderGenerator/application.cpp:63-68 | the triple loop pushes exactly CapFaces |
| Extrusion.WallQuadsShape | CellHolderGenerator/application.cpp:80-85 | two faces per ring vertex; face pair i is the quad of vertex i; every face stays within the ring and its lifted copy |
| Extrusion.RingWallShape | CellHolderGenerator/application.cpp:72-84 | a ring wall of size n has 2n faces: (s+i, s+(i+1)%n, s+(i+1)%n+N), then (s+i, s+(i+1)%n+N, s+i+N), wrapping from the last vertex to the first and never leaving the ring |
| Extrusion.EmitOuterWall | CellHolderGenerator/application.cpp:70-75 | the eight outer faces are the ring wall of vertices 0..3, wrapping 3 to 0 |
| Extrusion.HoleWallsCount | CellHolderGenerator/application.cpp:77-86 | the hole walls have 2*segs faces per hole |
| Extrusion.HoleWallsWithin | CellHolderGenerator/application.cpp:77-86 | every hole-wall face stays in [4, 4 + holes*segs) or its lifted copy |
| Extrusion.EmitHoleWalls | CellHolderGenerator/application.cpp:77-86 | the hole loops push exactly HoleWalls, with hole h starting at vertex 4 + h*segs |
| Extrusion.ExtrudedFacesCount | CellHolderGenerator/application.cpp:63-86 | the solid has 2*floor(n/3) + 8 + 2*segs*holes faces, n the length of the triangulation |
| Extrusion.ExtrudedFacesWithin | CellHolderGenerator/application.cpp:57-86 | when every triangulation index is below N = 4 + holes*segs, every face index is below 2N |
| Extrusion.Extrude | CellHolderGenerator/application.cpp:48-86 | vertex list of N = 4 + holes*segs points and its lifting; faces are caps, outer wall, hole walls; the face count; and indices in range when the triangulation indices are below N |
| Extrusion.Run | CellHolderGenerator/application.cpp:19-86 | the rings are RingSet at fitRect's required width and height; N = 4 + series*parallel*segs; 2N lifted vertices; 2*floor(n/3) + 8 + 2*segs*series*parallel faces for a triangulation of length n; every face names a vertex when every triangulation index is below N |
| Busbars.CentroidWithin | CellHolderGenerator/dxf_exporter.cpp:8-12 | the centroid lies in every axis-aligned box holding all the ring's points |
| Busbars.Centroid | CellHolderGenerator/dxf_exporter.cpp:8-12 | the sum loop returns the vertex mean |
| Busbars.Centroids | CellHolderGenerator/dxf_exporter.cpp:24-27 | C has series*parallel entries, and entry k is the centroid of ring 1 + k |
| Busbars.IdxCovers | CellHolderGenerator/dxf_exporter.cpp:24-27 | every entry of C is the cell (k / series, k % series) of the grid |
| Busbars.PairGroupsShape | CellHolderGenerator/dxf_exporter.cpp:57 | the pairs from an odd column c are {c+2i, c+2i+1}, with (series-c) div 2 of them |
| Busbars.GroupsShape | CellHolderGenerator/dxf_exporter.cpp:53-59 | [{0}] for at most one column; otherwise 2 + (series-1) div 2 groups: {0} first, {series-1} last, {2i-1, 2i} between; every column is covered, and no group names a column past the last |
| Busbars.OddSeriesLastColumnTwice | CellHolderGenerator/dxf_exporter.cpp:57-58 | for odd series ≥ 3 the last column is in the final pair and in the final singleton |
| Busbars.GroupKinds | CellHolderGenerator/dxf_exporter.cpp:63 | the first group is kind -1 on "B-", the last (from two columns on) is +1 on "B+", and every other one is 0 on "BUSBAR" |
| Busbars.BuildGroups | CellHolderGenerator/dxf_exporter.cpp:104-110 | the group loop returns exactly Groups(series) |
| Busbars.GroupsIn | CellHolderGenerator/dxf_exporter.cpp:53-59 | every group has one or two columns of the grid |
| Busbars.HalfGap | CellHolderGenerator/dxf_exporter.cpp:31 | halfGap ≥ 0; twice it is the gap when the gap is non-negative, and 0 otherwise |
| Busbars.LeastIsLeast | CellHolderGenerator/dxf_exporter.cpp:35-44 | the min accumulator ends at most 1e30 and at most every value, and is 1e30 or one of the values |
| Busbars.GreatestIsGreatest | CellHolderGenerator/dxf_exporter.cpp:35-44 | the max accumulator ends at least -1e30 and at least every value, and is -1e30 or one of the values |
| Busbars.LeastUnique | CellHolderGenerator/dxf_exporter.cpp:36-45 | visiting every cell in any order ends at the same minimum |
| Busbars.GreatestUnique | CellHolderGenerator/dxf_exporter.cpp:36-45 | visiting every cell in any order ends at the same maximum |
| Busbars.ColumnPass | CellHolderGenerator/dxf_exporter.cpp:37-45 | the row loop of column c sums that column's x and carries the extremes over exactly the cells seen before plus column c's cells, the seen set growing by exactly those indices |
| Busbars.VisitCell | CellHolderGenerator/dxf_exporter.cpp:39-44 | one row step adds C[r*series + c].x to the column sum, sets each extreme to the min or max of its old value and that entry's x or y, and adds exactly that index to the seen set |
| Busbars.ColumnStats | CellHolderGenerator/dxf_exporter.cpp:34-47 | meanX[c] is column c's x sum over max(1, parallel); minx, maxx, miny and maxy are the least and greatest centroid x and y |
| Busbars.Midpoints | CellHolderGenerator/dxf_exporter.cpp:48 | midX has series-1 entries, and 2*midX[j] == meanX[j] + meanX[j+1] |
| Busbars.AsWrittenSquareEdges | CellHolderGenerator/dxf_exporter.cpp:64-76 | the square-grid edges read straight from midX; None where a read leaves midX |
| Busbars.AsWrittenAgrees | CellHolderGenerator/dxf_exporter.cpp:64-76 | where the reads stay in range, they give exactly the guarded edges |
| Busbars.AsWrittenInRange | CellHolderGenerator/dxf_exporter.cpp:64-76 | group i's reads stay within midX exactly when series ≥ 2 and group i is not the last pair of an odd column count |
| Busbars.AsWrittenOutOfRange | CellHolderGenerator/dxf_exporter.cpp:66-75 | three columns: the pair {1,2} reads midX[2] of a two-entry midX; one column: {0} reads midX[0] of an empty midX |
| Busbars.EmitSquareBars | CellHolderGenerator/dxf_exporter.cpp:61-86 | the group loop pushes one rectangle per group, in group order |
| Busbars.SquareBranch | CellHolderGenerator/dxf_exporter.cpp:33-89 | the square branch returns SquareDrawing: the rectangles and no circles |
| Busbars.SquareOutline | CellHolderGenerator/dxf_exporter.cpp:50-81 | group i's rectangle is (xL,y0),(xR,y0),(xR,y1),(xL,y1) with y0 = miny - margin and y1 = maxy + margin; the left terminal runs from minx - clearance to MidRight(0) - halfGap (midX[0] - halfGap when it exists) and the right one from MidLeft(series-1) + halfGap (midX[series-2] + halfGap) to maxx + clearance; a pair runs from midX[c0-1] + halfGap to midX[c1] - halfGap (the outer edge where that midpoint does not exist) |
| Busbars.SquareBoundaryGap | CellHolderGenerator/dxf_exporter.cpp:64-76 | for neighbouring groups i and i+1 on a square grid, last column 2i of one and first column 2i+1 of the next, the rectangle of group i ends at midX[2i] - halfGap and that of group i+1 starts at midX[2i] + halfGap, so facing edges are 2 halfGap apart around the midpoint |
| Busbars.GuardedEdges | CellHolderGenerator/dxf_exporter.cpp:64-76 | with the guarded reads, the last pair of an odd column count ends halfGap inside outerR, and a single column spans outerL to halfGap inside outerR |
| Busbars.HoneyRows | CellHolderGenerator/dxf_exporter.cpp:91-100 | rowY[r] is the y of row r's first centroid; minx and maxx are the least and greatest centroid x |
| Busbars.RowPass | CellHolderGenerator/dxf_exporter.cpp:95-99 | the column loop of row r carries the x extremes over exactly the cells seen before plus row r's cells, the seen set growing by exactly those indices; minx and maxx lie beyond the start values and every x of row r, each being its start value or one of those x |
| Busbars.VisitRowCell | CellHolderGenerator/dxf_exporter.cpp:96-98 | one column step sets minx and maxx to the min and max of their old values and C[r*series + c].x, and adds exactly that index to the seen set |
| Busbars.EdgeColumns | CellHolderGenerator/dxf_exporter.cpp:128-142 | L and R have one entry per row: the group's left and right edges in that row |
| Busbars.EmitHoneyPath | CellHolderGenerator/dxf_exporter.cpp:150-164 | the two path loops give exactly HoneyPath: the left path down, then the right path back up |
| Busbars.EmitLeftPath | CellHolderGenerator/dxf_exporter.cpp:153-155 | the left path is the top point, one point per row top to bottom at the left edge (outerL for the negative terminal), then the bottom point |
| Busbars.EmitRightPath | CellHolderGenerator/dxf_exporter.cpp:157-159 | the right path is the bottom point, one point per row bottom to top at the right edge (outerR for the positive terminal), then the top point |
| Busbars.EmitHoneyBars | CellHolderGenerator/dxf_exporter.cpp:125-167 | the group loop pushes one path per group, in group order |
| Busbars.HoneyBranch | CellHolderGenerator/dxf_exporter.cpp:91-169 | the honeycomb branch returns HoneyDrawing: the paths and no circles |
| Busbars.HoneyOutline | CellHolderGenerator/dxf_exporter.cpp:147-164 | the path has 2*parallel + 4 points: its first parallel + 2 are LeftSide and the rest RightSide; top, every row, bottom on the left, then bottom, every row reversed, top on the right; the negative terminal's left side lies on outerL and the positive terminal's right side on outerR |
| Busbars.LeftSideAt | CellHolderGenerator/dxf_exporter.cpp:128-155 | the left side has parallel + 2 points: (L[0], yTop), then (L[r], rowY[r]) for every row r, then (L[parallel-1], yBot), with L[r] the group's left edge in row r |
| Busbars.RightSideAt | CellHolderGenerator/dxf_exporter.cpp:128-159 | the right side has parallel + 2 points: (R[parallel-1], yBot), then (R[r], rowY[r]) from the last row back to row 0, then (R[0], yTop), with R[r] the group's right edge in row r |
| Busbars.HoneyBoundaryGap | CellHolderGenerator/dxf_exporter.cpp:112-142 | for neighbouring groups i and i+1 on a honeycomb grid, in every row r the right edge of group i is mid - halfGap and the left edge of group i+1 is mid + halfGap, mid being the midpoint of row r's columns 2i and 2i+1 |
| Busbars.BusbarsSeriesGroups | CellHolderGenerator/dxf_exporter.cpp:14-170 | the drawing is BusbarDrawing: centroids, then the square or the honeycomb outline |
| Busbars.DrawingShape | CellHolderGenerator/dxf_exporter.cpp:81-166 | no circles; one closed polyline per group, in group order, on the group's layer, with 4 points on a square grid and 2*parallel + 4 on a honeycomb grid |
| StlExport.LastSeparator | CellHolderGenerator/stl_exporter.cpp:10 | find_last_of("\\/") gives the last position holding a separator, or None when there is no separator |
| StlExport.Dir | CellHolderGenerator/stl_exporter.cpp:10-13 | dir is a prefix of the path, is empty or ends in a separator, and the rest of the path holds no separator |
| StlExport.DirUnique | CellHolderGenerator/stl_exporter.cpp:10-13 | those three properties determine dir |
| StlExport.OutPath | CellHolderGenerator/stl_exporter.cpp:15 | outPath starts with dir and continues with the file name |
| StlExport.Unsigned32 | CellHolderGenerator/stl_exporter.cpp:21 | (uint32_t)v is v for 0 ≤ v < 2^32 and v + 2^32 for a negative int |
| StlExport.WrittenIff | CellHolderGenerator/stl_exporter.cpp:21-22 | for int indices and at most 2^31 vertices, a face passes the test exactly when all three indices lie in [0, V), so negative indices are skipped |
| StlExport.Emitted | CellHolderGenerator/stl_exporter.cpp:19-22 | the written faces number at most the faces, and each passes the test |
| StlExport.EmittedKeeps | CellHolderGenerator/stl_exporter.cpp:19-22 | every face that passes the test is written |
| StlExport.EmittedAppend | CellHolderGenerator/stl_exporter.cpp:20-22 | the filter keeps face order: the faces of a + b are a's written faces, then b's |
| StlExport.EmittedSingle | CellHolderGenerator/stl_exporter.cpp:21-22 | a single face is written exactly when it passes the test |
| StlExport.EmitsAll | CellHolderGenerator/stl_exporter.cpp:19-22 | when every face names a vertex, no face is skipped |
| StlExport.EmittedWithin | CellHolderGenerator/stl_exporter.cpp:21-26 | every written face names vertices, so the three vertex reads are in range |
| StlExport.FixedText | CellHolderGenerator/stl_exporter.cpp:17-38 | the five fixed lines carry the source's text; only normal and vertex lines carry data |
| StlExport.WriteFacet | CellHolderGenerator/stl_exporter.cpp:24-35 | a facet is the normal of (b - a) x (c - a), then vertices v1, v2, v3 in that order, in the seven-line block |
| StlExport.FacetsSize | CellHolderGenerator/stl_exporter.cpp:29-35 | seven lines per facet |
| StlExport.FacetsAt | CellHolderGenerator/stl_exporter.cpp:29-35 | facet k is the lines [7k, 7k + 7) |
| StlExport.StlTextShape | CellHolderGenerator/stl_exporter.cpp:17-38 | the text opens with "solid cellholder", closes with "endsolid cellholder", and holds one seven-line facet per written face, in face order |
| StlExport.WriteFacets | CellHolderGenerator/stl_exporter.cpp:19-36 | the face loop with its continue writes the facets of exactly the faces that pass the test |
| StlExport.WriteFaceAt | CellHolderGenerator/stl_exporter.cpp:21-35 | one face step: a face with an index failing the unsigned test is skipped, any other appends its facet, so the text stays the facets of the passing faces so far |
| StlExport.ExportAscii | CellHolderGenerator/stl_exporter.cpp:6-40 | the output path is dir + filename, and the lines written are StlText: header, filtered facets, footer |

## Left out

- File output is not modelled: the `ofstream` writes, `dxf::save` (dxf_exporter.cpp:172-185) and `Mesh::export_as_stl` (mesh.cpp).
  - The STL output is modelled as a sequence of lines. The normal and vertex lines carry their vectors; the stream's number formatting is not modelled.
- `GetModuleFileNameA` and `MAX_PATH` are operating-system calls. The executable path is a parameter of `StlExport.ExportAscii`.
- `geometry::triangulate` wraps the foreign earcut library. Its index list is the input `I` of `Extrusion.Run`.
  - That every index is below N is an assumption, stated as the premise of an implication rather than proved.
- Floating point is not modelled:
  - coordinates are exact reals, with no float rounding and no `float()` or `double` conversions;
  - `std::cos`, `std::sin` and `std::sqrt` are function parameters;
  - 1e30f is the exact real 10^30.
- The hard-coded parameters and the export call of `Application::run` (application.cpp:10-17, 88) are left out. The parameters become arguments; the export call is I/O.
- Extrusion.Run: models the ring construction at application.cpp:25-45 by calling `CellLayout.RectangleFixed`, because the code is a copy of `rectangleFixed` with width W and height H. The ensures states that W and H are `fitRect`'s `reqW` and `reqH` formulas.
- Extrusion.Run: the `(int)` casts of triangulation indices and `size_t` offsets are not modelled. Indices are unbounded naturals with no 32-bit wrap-around.
  - The implemented meshes stay far below 2^31 vertices.
- Counts are `nat` in `CellLayout.RectangleFixed`, `Application::run` and `busbars_series_groups`.
  - `CellLayout.RectangleFixedSigned` covers the source's `int` counts. The ring `reserve` (cell_layout.cpp:51) throws `std::length_error` only when 1 + series*parallel < 0. The hole `reserve` (cell_layout.cpp:61) throws only when segs < 0 and at least one cell is visited. Every other input returns the ring set over the loops' pass counts, which is the outer rectangle alone when series or parallel is ≤ 0. The throw is the `None` result.
  - Overflow of the `int` product series*parallel is not modelled.
  - `Application::run` passes constants (application.cpp:14-16), so no negative count arises there.
  - `fitRect` keeps `int` counts.
- CellLayout.FitRect: requires a non-zero pitch. The source divides by the pitch (and by the row step) only on an overflowing axis, and a zero divisor is a float infinity the real model has no value for.
- StlExport.ExportAscii: requires int-range face indices and at most 2^31 vertices. With more vertices, a negative index cast to unsigned could pass the test; the next vertex read would then be out of bounds in the source.
- Busbars.BusbarsSeriesGroups: requires series ≥ 1, parallel ≥ 1 on a honeycomb grid, and non-empty cell rings. These are the cases where the source constructs `midX(series - 1)` with a negative size, reads `rowY.front()` of an empty vector, or divides by a zero point count.
- Busbars.BusbarsSeriesGroups: takes `clearance`, `endMargin`, `weldDiameter` and `gap` as arguments. `r_weld` (dxf_exporter.cpp:30) is computed but never used, because the circles are commented out, so `circles` stays empty.
- Busbars.SquareBranch: uses the guarded edges of `Busbars.SquareEdges` where the source reads `midX` out of range (see Findings).
  - With one column, both branches give the single group the extent from outerL to outerR less halfGap, as the honeycomb branch's `midR_at` does. That group is not the full width.
- `cell_layout.h` is out of sync with `cell_layout.cpp`: it declares neither `fitRect` nor `FitResult`. The field order of `FitResult` follows cell_layout.cpp:30-32.

## Findings

| source | as written | input that shows it | evidently intended | confidence | as-written member | corrected member |
|---|---|---|---|---|---|---|
| CellHolderGenerator/dxf_exporter.cpp:64-76 | on a square grid the edges read `midX[0]` for the group {0}, and `midX[c1]` for a pair {c0, c1}; `midX` has series-1 entries | series = 3: the pair {1, 2} reads `midX[2]` of a two-entry `midX`; series = 1: {0} reads `midX[0]` of an empty `midX` | guard these reads as `midL_at`/`midR_at` do on a honeycomb grid (dxf_exporter.cpp:112-123): a missing midpoint falls back to the outer edge | not executed | Busbars.AsWrittenOutOfRange | Busbars.GuardedEdges |
