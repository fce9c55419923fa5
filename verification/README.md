# Region coloring for boundary maps, in Dafny

This project models the core of `geoutils.py`. That script turns a table of
administrative regions into a map layer. It can also give each region one of
five colors, so that no two regions that touch share a color.

The model covers three steps:

- **`color_regions`**. The regions' touch matrix is taken as input. Its
  diagonal is cleared. Each region becomes a variable with domain
  `range(num_colors)`. Each adjacent pair gets a `!=` constraint. The problem
  is then solved.
- **The solver**. `problem.getSolution()` belongs to a library. The model
  replaces it with a backtracking solver (`Solver.Search`). The solver is
  proved sound: its result is a solution. It is also proved complete: it
  answers `None` only when no solution exists.
- **The table steps of `to_geojson`**. Filters are applied one dict entry at
  a time. Every record gets `COLOR = -1`. Records whose identifier is in the
  color map then get that region's color.

Modules:

| module | file | contents |
|---|---|---|
| `Wrappers` | wrappers.dfy | `Option`, `Result` |
| `Adjacency` | adjacency.dfy | the touch matrix, diagonal clearing |
| `Csp` | csp.dfy | variables, domains, `!=` constraints, the solution contract |
| `Solver` | solver.dfy | backtracking search, soundness and completeness |
| `Coloring` | coloring.dfy | `color_regions`: problem construction, proper colorings, palette monotonicity |
| `Scenarios` | scenarios.dfy | empty graph, edgeless graph, triangle, 4-cycle |
| `Frame` | frame.dfy | records, the filter loop |
| `Overlay` | overlay.dfy | the `COLOR` column |
| `GeoJson` | geojson.dfy | `to_geojson` from filtering to coloring |

Modelling choices:

- The geometric touch test is a caller-supplied function on records.
  `GeoJson.TouchMatrix` fills the matrix as line 80 does: row `i`, column `j`
  holds whether record `j` touches record `i`.
- Line 87 reads column `xi` of the matrix. So `nodes[i] != nodes[j]` is
  constrained exactly when column `i` marks row `j`. A `!=` constraint binds
  both directions, so the touch relation does not need to be symmetric.
- Identifiers must be unique among the records that survive the filters,
  since that filtered frame is what reaches `color_regions` (the docstring says
  "column containing unique values"). The source never checks this, so it is
  a `requires`, not an error result. The same id may repeat in records the
  filters drop.
- `if color_col:` skips coloring for `None` and for the empty string.
- A filter key or identifier column that the frame lacks raises `KeyError` in
  pandas. The model returns `Failure(KeyError(column))`.
- When the filters keep no records, line 80 builds a one-dimensional
  `np.array([])`, and `np.fill_diagonal` at line 81 raises `ValueError`.
  `Coloring.ColorRegions` returns `Failure(NotTwoDimensional)` for no regions,
  and the pipeline returns `Failure(ValueError)`.
- When the solver finds nothing, `color_regions` returns `None`, modelled as
  `Success(None)`. The source's `for node in color_map` then fails on `None`,
  and the pipeline returns `Failure(Uncolorable)`.
- Python dicts iterate in insertion order, which the model cannot see here.
  The overlay therefore takes the visiting order as a parameter, and
  `Overlay.ColoringOrderIrrelevant` proves the order does not matter.

## Model

| member | source | states |
|---|---|---|
| `Adjacency.ClearDiagonal` | geoutils.py:81 | The result is the same size as the input. Its diagonal is all false, so no region is adjacent to itself. Every off-diagonal entry is unchanged. |
| `Adjacency.ClearDiagonalIdempotent` | geoutils.py:81 | Clearing the diagonal twice gives the same matrix as clearing it once. |
| `Csp.Range` | geoutils.py:76 | `range(k)` has `k` elements, and element `i` is `i`, so the values come in increasing order. Its elements are exactly the integers in `[0, k)`. |
| `Solver.Search` | geoutils.py:90 | A result keeps the given partial assignment. It adds exactly the remaining variables, each with a value from its own domain, and breaks no constraint. |
| `Solver.TryValues` | geoutils.py:90 | When the search tries candidate values for one variable, any success has the same guarantees as `Search`. |
| `Solver.SearchComplete` | geoutils.py:90 | If some consistent extension of the partial assignment exists, the search does not return `None`. |
| `Solver.TryValuesComplete` | geoutils.py:90 | If a consistent extension gives the current variable a value among the candidates, trying those candidates succeeds. |
| `Solver.Solve` | geoutils.py:66-73 | The contract of `getSolution`. A returned map has exactly the declared variables as keys. Each value lies in that variable's domain, and every `!=` constraint holds. |
| `Solver.SolveComplete` | geoutils.py:90 | If any solution exists, the solver returns one. |
| `Solver.SolveDecides` | geoutils.py:90 | The solver succeeds if and only if a solution exists. |
| `Coloring.Variables` | geoutils.py:85-86 | There is one variable per region, named by that region. Each domain is exactly `[0, k)`. |
| `Coloring.ColumnConstraintsExact` | geoutils.py:87-88 | For one column of the matrix, a constraint is added for each marked row. Every added constraint comes from a marked entry. |
| `Coloring.ConstraintsFromExact` | geoutils.py:85-88 | Across the remaining columns, a constraint is added for each marked entry. Every added constraint comes from a marked entry. |
| `Coloring.ColumnConstraints` | geoutils.py:87-88 | No contract of its own. It is characterised by `Coloring.ColumnConstraintsExact`. |
| `Coloring.ConstraintsFrom` | geoutils.py:85-88 | No contract of its own. It is characterised by `Coloring.ConstraintsFromExact`. |
| `Coloring.BuildProblem` | geoutils.py:75-88 | No contract of its own. It is characterised by `Coloring.ConstraintsMatchMatrix`, `Coloring.VariablesMatchRegions` and `Coloring.BuildProblemWellFormed`. |
| `Coloring.ConstraintsMatchMatrix` | geoutils.py:85-88 | A `!=` constraint between `nodes[i]` and `nodes[j]` exists if and only if column `i` marks row `j`. Every constraint names declared regions. |
| `Coloring.VariablesMatchRegions` | geoutils.py:76-86 | The variable names are exactly the regions, with no name repeated. Every domain is `[0, k)`. |
| `Coloring.BuildProblemWellFormed` | geoutils.py:82-88 | The built problem declares no variable twice. Its constraints mention only declared variables. |
| `Coloring.NoSelfConstraint` | geoutils.py:80-88 | Once the diagonal is cleared, no region is constrained against itself. |
| `Coloring.ConstrainedPairsAreAdjacentPairs` | geoutils.py:80-88 | For a symmetric touch matrix, a pair is constrained in one order if and only if it is constrained in the other. That happens exactly when the two regions are distinct and touch. |
| `Coloring.CoversMeansPalette` | geoutils.py:76-86 | A map gives every variable a value from its domain if and only if it gives every region a color in `[0, k)`. |
| `Coloring.SolutionIsColoring` | geoutils.py:75-90 | Every solution of the built problem is a proper coloring: it colors every region and nothing else, uses only the palette, and gives touching regions different colors. |
| `Coloring.ColoringIsSolution` | geoutils.py:75-90 | Every proper coloring is a solution of the built problem. |
| `Coloring.ColorRegions` | geoutils.py:55-90 | `color_regions` raises exactly when there are no regions, because the matrix is then not two-dimensional. Any coloring it returns is a proper coloring with `num_colors` colors. |
| `Coloring.ColorRegionsComplete` | geoutils.py:75-90 | If a proper coloring exists and `color_regions` does not raise, it does not return `None`. |
| `Coloring.ColorRegionsDecides` | geoutils.py:75-90 | When `color_regions` does not raise, it returns a coloring if and only if the regions can be colored with `k` colors. |
| `Coloring.WiderPaletteKeepsSolutions` | geoutils.py:76 | A solution for palette `range(k)` is also a solution for `range(k')` whenever `k <= k'`. |
| `Coloring.WiderPaletteStillColors` | geoutils.py:67-76 | If coloring succeeds with `k` colors, it succeeds with any `k' >= k`. |
| `Scenarios.EmptyGraph` | geoutils.py:80-81 | With no regions, `color_regions` raises because the matrix is not two-dimensional, whatever the palette size. |
| `Scenarios.EdgelessOneColor` | geoutils.py:55-90 | At least one region, none touching another, can be colored with one color. |
| `Scenarios.TriangleHasNoTwoColoring` | geoutils.py:55-90 | No two-color map is a proper coloring of three regions that all touch each other. |
| `Scenarios.TriangleNeedsThreeColors` | geoutils.py:55-90 | A triangle gets `None` with two colors and a coloring with three. |
| `Scenarios.RingColoringAlternates` | geoutils.py:55-90 | In any 2-coloring of the 4-cycle A-B-C-D, A and C share a color, B and D share the other. |
| `Scenarios.RingTwoColors` | geoutils.py:55-90 | The 4-cycle is colored with two colors, and the coloring alternates around the ring. |
| `Frame.Keep` | geoutils.py:37 | The kept records are exactly the input records that match every filter. There are never more of them than input records. |
| `Frame.KeepCons` | geoutils.py:37 | The first record is kept exactly when it matches every filter, and the remaining records are filtered the same way. |
| `Frame.KeepAppend` | geoutils.py:37 | Filtering two runs of records one after the other gives the records kept from the first run followed by those kept from the second. Order is therefore preserved. |
| `Frame.KeepOne` | geoutils.py:37 | A single record is kept exactly when it matches every filter. |
| `Frame.KeepCounts` | geoutils.py:37 | Filtering never duplicates a record, and it keeps every copy of a matching record. |
| `Frame.ApplyFilters` | geoutils.py:36-37 | No contract of its own. It is characterised by `Frame.FiltersKeepMatching` and `Frame.FilterOrderIrrelevant`. |
| `Frame.KeepThenKeep` | geoutils.py:36-37 | Filtering by one entry and then by the rest is the same as filtering by all entries at once. |
| `Frame.FiltersKeepMatching` | geoutils.py:36-37 | The loop succeeds if and only if every filter key is a column. On success it leaves the columns unchanged and keeps exactly the matching records, in their original order. On failure it reports a key the frame lacks. |
| `Frame.KeepAllRows` | geoutils.py:36-37 | When every record matches, filtering keeps the records unchanged. |
| `Frame.KeepSameFilters` | geoutils.py:36-37 | Filter lists with the same entries keep the same records. |
| `Frame.FilterOrderIrrelevant` | geoutils.py:36-37 | Applying the same filters in another order gives the same success or failure and, on success, the same frame. |
| `Frame.FiltersKeepWellFormed` | geoutils.py:36-37 | Filtering a frame in which every record has every column gives a frame with the same property. |
| `Overlay.InitColor` | geoutils.py:42 | No contract of its own. `Overlay.ApplyColoringColors` covers it as the first step of the overlay. |
| `Overlay.Paint` | geoutils.py:44 | No contract of its own. `Overlay.PaintAllColors` covers it one region at a time. |
| `Overlay.PaintAll` | geoutils.py:43-44 | No contract of its own. It is characterised by `Overlay.PaintAllColors`. |
| `Overlay.ApplyColoring` | geoutils.py:42-44 | No contract of its own. It is characterised by `Overlay.ApplyColoringColors` and `Overlay.ColoringOrderIrrelevant`. |
| `Overlay.PaintAllColors` | geoutils.py:43-44 | Painting some regions on top of those already painted colors exactly the records of all of those regions. No other cell changes. |
| `Overlay.ApplyColoringColors` | geoutils.py:42-44 | After the overlay, a record whose identifier is a key of the map has that key's color. Every other record has -1. No other cell changes, and `COLOR` becomes a column. |
| `Overlay.ColoringOrderIrrelevant` | geoutils.py:43-44 | The order in which the color map's regions are visited does not change the result. |
| `GeoJson.Nodes` | geoutils.py:79 | The identifier column has one entry per record, and entry `i` is record `i`'s identifier. |
| `GeoJson.TouchMatrix` | geoutils.py:80 | The matrix is square with one row per record. Row `i`, column `j` says whether record `j` touches record `i`. |
| `GeoJson.KeepKeepsDistinct` | geoutils.py:36-37 | If the identifiers are unique in the whole table, they are unique among the records kept. So uniqueness before filtering meets the precondition of `GeoJson.ToGeoJson`, but that precondition asks only for uniqueness after filtering. |
| `GeoJson.ColorRecords` | geoutils.py:40-44 | No contract of its own. It is characterised by `GeoJson.ColorRecordsColors`, `GeoJson.ColorRecordsEmpty` and `GeoJson.ColorRecordsUncolorable`. |
| `GeoJson.OverlayOfProperColoring` | geoutils.py:41-44 | Overlaying a proper coloring gives every record a `COLOR` from the palette. Each record keeps its other cells, and records the matrix marks as adjacent get different colors. |
| `GeoJson.ColorRecordsColors` | geoutils.py:40-44 | After coloring, every record has a color in `[0, 5)` and otherwise keeps its cells. Records whose geometries touch have different colors. |
| `GeoJson.ColorRecordsEmpty` | geoutils.py:80-81 | Coloring fails with `ValueError` if and only if there are no records. |
| `GeoJson.ColorRecordsUncolorable` | geoutils.py:41-44 | With at least one record, coloring fails if and only if no proper five-coloring exists, and the failure is then `Uncolorable`. |
| `GeoJson.ToGeoJsonUncolored` | geoutils.py:36-40 | Without an identifier column, the run succeeds if and only if every filter key is a column. The result is the frame with exactly the matching records. |
| `GeoJson.ToGeoJsonColored` | geoutils.py:36-44 | A colored result holds exactly the filtered records, in their original order. Each gains a color in `[0, 5)` and keeps its other cells. Touching records get different colors. |
| `GeoJson.ToGeoJson` | geoutils.py:36-44 | No contract of its own. It is characterised by `GeoJson.ToGeoJsonUncolored`, `GeoJson.ToGeoJsonColored` and `GeoJson.ToGeoJsonFailures`. Its precondition asks for unique identifiers only among the records the filters keep. |
| `GeoJson.ToGeoJsonFailures` | geoutils.py:36-44 | Every failure is one of three kinds. A key is missing from the frame. Or the identifier column exists but the filters keep no records, so `color_regions` raises `ValueError`. Or the filtered regions have no proper five-coloring. |

## Left out

- Reading the zip archive (lines 32-33) is file I/O.
- Reprojecting to EPSG:4326 (line 47) is a floating-point coordinate transformation.
- Writing the GeoJSON file (line 50) and the `__main__` call (lines 94-96) are I/O and command-line glue.
- The geometric `touches` test (line 80) uses floating-point geometry. It is a caller-supplied function, and the model assumes nothing about it, not even symmetry.
- The search order and internals of the constraint library's `getSolution` are not modelled. The model's own solver assigns variables in declaration order and tries values in increasing order. It does no forward checking and no variable-ordering heuristic.
- How the constraint library behaves on an empty domain is not modelled. Here, `num_colors = 0` with at least one region gives `None`. A problem with no variables never reaches the library, because line 81 raises first.
- Duplicate identifiers among the records the filters keep are excluded by a precondition, not modelled as an error result, because the source does not check for them.
- pandas details are not modelled: dtypes, missing values, and index alignment. Records are maps from column name to value, and the matrix is a sequence of sequences.
- `Overlay.PaintAllColors` assumes the identifier column is not `COLOR`. If it were, painting one region would change the identifiers that later regions are compared against, so the closed form does not hold. `Overlay.PaintAll` still models that case as written.
- `Overlay.ApplyColoringColors` assumes the identifier column is not `COLOR`. If it were, line 42 would overwrite the identifiers before line 44 compares against them. `Overlay.ApplyColoring` still models that case as written.
- `Overlay.ColoringOrderIrrelevant` assumes the identifier column is not `COLOR`, for the same reason.
- `GeoJson.OverlayOfProperColoring` assumes the identifier column is not `COLOR`, for the same reason.
- `GeoJson.ColorRecordsColors` assumes the identifier column is not `COLOR`, for the same reason.
- `GeoJson.ToGeoJsonColored` assumes the identifier column is not `COLOR`, for the same reason.
