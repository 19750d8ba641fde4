# Seismic survey backend — verified model of its geometry and grouping logic

The backend serves a 3D seismic survey stored as a SEG-Y file to a map viewer. Every
trace carries an inline number, a crossline number and raw CDP coordinates. The SGS
scalar in header word 71 turns raw coordinates into real ones. Three endpoints are
modelled here:

- `/survey-boundary`: the four corner traces become a closed polygon, with the inline and
  crossline number of every vertex, the distinct line numbers, the extent, bin sizes and
  an orientation.
- `/grid-data-all`: every line with at least two traces becomes a polyline of trace
  positions, with one hover entry per point.
- `/boundary-edge-lines`: for each of the four polygon edges, the sorted lists of the
  inlines and crosslines that come within 50 units of it.

All three are built on the deduplicated trace table of `read_all_segy_metadata`.

Modules, one per concern of `backend/app.py`:

| file | module | models |
|---|---|---|
| scaling.dfy | `Scaling` | `apply_sgs_scaling` and the "zero scalar counts as 1" rule |
| geometry.dfy | `Geometry` | points, segments and `point_to_line_distance` (squared) |
| ordering.dfy | `Ordering` | `sorted`, `list.sort` and `Series.unique` on line numbers |
| metadata.dfy | `Metadata` | the trace table, `drop_duplicates`, row selection by line |
| survey.dfy | `Survey` | `read_segy_metadata` corners and `survey_boundary` |
| edge_lines.dfy | `EdgeLines` | `boundary_edge_lines` |
| grid.dfy | `Grid` | `grid_data_all` |

Coordinates are exact reals. A distance is compared through its square, so no square
root is needed. `EdgeLines.SquaredComparison` proves that this gives the same answer
as comparing the distance itself with the tolerance. Python's exceptions become a
`Result`: `min` of an empty list in `survey_boundary` becomes `Err`.

## Model

| member | source | states |
|---|---|---|
| `Scaling.ApplySgs` | backend/app.py:28-35 | a zero scalar leaves the value alone; a negative scalar gives a result that times the scalar's magnitude is the value; a positive scalar gives a result that divided by the scalar is the value; scalars 1 and -1 are neutral |
| `Scaling.EffectiveSgs` | backend/app.py:46-48 | the scalar the readers use is 1 when the header's scalar is zero and the header's scalar otherwise |
| `Scaling.ScalingInverse` | backend/app.py:28-35 | for k > 0, scaling by -k undoes scaling by k, and the other way round |
| `Scaling.EffectiveSgsKeepsScaling` | backend/app.py:90-97 | replacing a zero scalar by 1 never changes a scaled coordinate |
| `Geometry.DistSqSign` | backend/app.py:342-344 | a squared distance is non-negative, and zero exactly for equal points |
| `Geometry.Clamp01` | backend/app.py:334-340 | a parameter below 0 becomes 0 (the start point), one above 1 becomes 1 (the end point), and one inside [0, 1] is left alone |
| `Geometry.ClosestPoint` | backend/app.py:334-340 | below 0 the start point is taken, above 1 the end point, in between the point at that fraction of the segment: the point at the clamped parameter |
| `Geometry.SegmentDistSq` | backend/app.py:318-344 | the distance is non-negative and is the distance to some point of the segment |
| `Geometry.DegenerateSegment` | backend/app.py:328-335 | for a zero-length segment `param` stays -1 and the distance is the distance to the start point |
| `Geometry.QuadraticInT` | backend/app.py:323-340 | the squared distance to the point at parameter t is the quadratic `base - 2 t dot + t^2 len_sq` |
| `Geometry.ClosestPointIsNearest` | backend/app.py:318-344 | no point of the segment is nearer to the point than the clamped projection |
| `Geometry.NearestAtStart` | backend/app.py:334-344 | when the projection falls before the segment, its start is at least as near as any point of the segment |
| `Geometry.NearestAtStop` | backend/app.py:334-344 | when the projection falls past the segment, its end is at least as near as any point of the segment |
| `Geometry.NearestAtFoot` | backend/app.py:334-344 | the foot of the perpendicular is at least as near as any point of the line through the segment, so when it falls on the segment it is the nearest point |
| `Ordering.Sort` | backend/app.py:374-376 | the result is an ascending permutation of the input; on duplicate-free input it is strictly increasing |
| `Ordering.Unique` | backend/app.py:350-350 | the result has no repeats and holds exactly the input's values |
| `Ordering.SortedDistinct` | backend/app.py:142-143 | the line numbers are strictly increasing and are exactly the values present |
| `Metadata.KeepFirst` | backend/app.py:99-106 | for a prefix of the table, the kept records have unique (inline, crossline) keys, cover every key of the prefix, and are exactly the first record of each key |
| `Metadata.HasKeyAppend` | backend/app.py:99-106 | appending a record to the table adds its (inline, crossline) pair and no other |
| `Metadata.KeepFirstInOrder` | backend/app.py:106 | the records kept from a prefix are first-of-pair records at strictly increasing positions, so they keep table order |
| `Metadata.Dedup` | backend/app.py:99-106 | after `drop_duplicates` every (inline, crossline) pair occurs once, every pair of the input is still present, and the record kept for a pair is its first |
| `Metadata.DedupInOrder` | backend/app.py:106 | `drop_duplicates` keeps the surviving records in their table order |
| `Metadata.ReadAllMetadata` | backend/app.py:82-107 | the table has one record per (inline, crossline) pair, and its pairs are exactly those of the traces |
| `Metadata.ReadAllMetadataRecords` | backend/app.py:95-106 | every record of the table is the first trace of its (inline, crossline) pair scaled by the effective scalar, and its X and Y are its raw coordinates under the SGS rule with the header's own scalar |
| `Metadata.FirstOfKeyIsFirstTrace` | backend/app.py:95-106 | a scaled record is the first of its pair in the scaled table exactly when its trace is the first of that pair among the traces |
| `Metadata.ReadAllMetadataInOrder` | backend/app.py:82-107 | the table is the first trace of each pair, scaled, taken in the order of the traces in the file |
| `Metadata.Rows` | backend/app.py:351-351 | the rows of a line are exactly the records with that line number |
| `Metadata.RowsCount` | backend/app.py:247-248 | a line holds each of its records as often as the table does and no other record, so its length is the count that `len(il_data) >= 2` tests |
| `Survey.ReadCorners` | backend/app.py:58-79 | row i of the corner frame has corner index i, the raw coordinates and line numbers of header i, and its X and Y scaled by the SGS rule |
| `Survey.FindCorner` | backend/app.py:129-131 | nothing is found exactly when no row has the index; otherwise the row found is the first with that index |
| `Survey.Visit` | backend/app.py:128-134 | every index of the order yields a corner exactly when as many corners are found as indices; then the k-th found corner is the row of the k-th index |
| `Survey.VisitInOrder` | backend/app.py:128-134 | whatever indices are missing, the found corners are the rows of exactly the indices that have one, in the order of the visit |
| `Survey.VisitNoneStep` | backend/app.py:129-130 | an index with no row is skipped and adds nothing to the picks |
| `Survey.VisitSomeStep` | backend/app.py:129-134 | an index with a row appends that row, at the next position, to the picks |
| `Survey.Close` | backend/app.py:137-138 | a non-empty vertex list gains one point, equal to its first; an empty one stays empty |
| `Survey.Open` | backend/app.py:299-299 | `boundary[:-1]` drops exactly the last point |
| `Survey.OpenClose` | backend/app.py:137-147 | dropping the closing point gives back the vertices that were closed |
| `Survey.SurveyRing` | backend/app.py:121-138 | the ring is closed; `iline_cood` and `xline_cood` have one entry per vertex; when every corner of the order 0, 3, 1, 2 exists, vertex k and both line numbers k come from the k-th corner of that order |
| `Survey.SurveyRingInOrder` | backend/app.py:121-138 | whatever corners are missing, the open ring has one vertex per corner index with a row, in the order 0, 3, 1, 2, and vertex j and both line numbers j come from the j-th such row |
| `Survey.FindIndexedCorner` | backend/app.py:129-131 | in a frame whose rows carry their own index, looking up index j gives row j |
| `Survey.FourCornerRing` | backend/app.py:121-138 | the four corner traces make a closed ring of five points: corners 0, 3, 1, 2 scaled by the SGS rule, then corner 0 again, each with its own line numbers |
| `Survey.MinOf` | backend/app.py:148-149 | `min` returns an element no larger than any other |
| `Survey.MaxOf` | backend/app.py:148-149 | `max` returns an element no smaller than any other |
| `Survey.ExtentOf` | backend/app.py:146-149 | the extent fails exactly when the ring has no vertex before its closing point; otherwise x_min <= x_max and y_min <= y_max, every vertex is in the box, and each bound is a vertex's coordinate |
| `Survey.ExtentCoversClosedRing` | backend/app.py:146-149 | ignoring the closing point loses nothing: the box also contains every point of the closed ring |
| `Survey.OrientationAsWritten` | backend/app.py:191-197 | for deg_1 in (-180, 180] fin_deg is in [0, 360); negative angles land in (90, 270), [0, 90] lands in [0, 90], and (90, 180] lands in [270, 360) |
| `Survey.OrientationAsWrittenInjective` | backend/app.py:192-197 | on (-180, 180] two angles with the same fin_deg are equal |
| `Survey.OrientationAsWrittenOnto` | backend/app.py:192-197 | every angle of [0, 360) is the fin_deg of some deg_1 in (-180, 180] |
| `Survey.OrientationAsWrittenMirrorsNegative` | backend/app.py:192-193 | for negative deg_1 the branch as written gives 360 minus the azimuth, and the two agree only at -90 |
| `Survey.OrientationSouthEast` | backend/app.py:192-193 | deg_1 = -45 gives 225 as written, where the azimuth is 135 |
| `Survey.Orientation` | backend/app.py:191-197 | the azimuth differs from 90 - deg_1 by zero or one whole turn, and lies in [0, 360) for deg_1 in (-180, 180] |
| `Survey.AzimuthUnique` | backend/app.py:191-197 | any angle in [0, 360) that differs from 90 - deg_1 by whole turns is the azimuth |
| `Survey.BinSize` | backend/app.py:185-186 | with at most one line the bin size is 0; otherwise it times the number of gaps times the scalar's magnitude is the edge length, and it is non-negative for a non-negative length |
| `Survey.TableLinesAreTraceLines` | backend/app.py:141-143 | the line numbers of the deduplicated table are exactly those of the traces |
| `Survey.TableLineIsTraceLine` | backend/app.py:141-143 | every line number of the deduplicated table is the line number of some trace |
| `Survey.TraceLineIsTableLine` | backend/app.py:141-143 | every trace's line number survives deduplication |
| `Survey.SurveyBoundary` | backend/app.py:117-224 | fails exactly when no vertex was found or the trace table is empty; otherwise it returns the ring; both line lists are strictly increasing and hold exactly the traces' line numbers; the extent is the extent of the ring without its closing point; the scalar is the header's with 0 replaced by 1; the orientation is the program's `fin_deg`, in [0, 360) for `deg_1` in (-180, 180]; `bin_size_il` comes from `len2` and the inline count, `bin_size_xl` from `len1` and the crossline count, each 0 when its family has at most one line |
| `Survey.CornerMetrics` | backend/app.py:181-182 | `len1` is the distance from corner 0 to corner 3 and `len2` the distance from corner 0 to corner 2, between scaled corner positions |
| `Survey.SurveyBoundaryAnswers` | backend/app.py:117-224 | four corner traces and a non-empty trace table always give an answer |
| `Survey.SurveyBoundaryBinSizes` | backend/app.py:181-186 | with non-negative lengths the endpoint answers, both bin sizes are non-negative, and each bin size spread over its gaps and the scalar gives back its length; when the lengths are the corner distances (`Survey.CornerMetrics`), inlines span corners 0 and 2 and crosslines corners 0 and 3 |
| `Survey.BinSizeSpans` | backend/app.py:185-186 | a bin size from a non-negative length is non-negative and, spread back over the gaps and the scalar, gives the length and hence squares to the length's square |
| `Survey.SurveyBoundaryAzimuth` | backend/app.py:191-197 | the reported orientation equals the compass azimuth of `deg_1` for `deg_1` in [0, 180]; for negative `deg_1` the two sum to 360 and agree only at -90 |
| `EdgeLines.SquaredComparison` | backend/app.py:344-356 | comparing a distance with 50 is the same as comparing its square with 2500 |
| `EdgeLines.Edges` | backend/app.py:304-310 | there are four edges, and edge i runs from vertex i to vertex (i + 1) mod 4 |
| `EdgeLines.EdgesChain` | backend/app.py:304-310 | each edge ends where the next one starts, and the last ends where the first starts |
| `EdgeLines.TouchesEdge` | backend/app.py:355-359 | the point loop with its break reports a hit exactly when some point of the line is within the tolerance |
| `EdgeLines.TouchesIffHits` | backend/app.py:350-356 | testing the points of a line is the same as testing the records with that line number |
| `EdgeLines.AddToEdges` | backend/app.py:354-359 | after one line, each edge's list holds what it held plus the line if the line touches that edge; the `not in` guard keeps a duplicate-free list duplicate-free |
| `EdgeLines.AppendFresh` | backend/app.py:357-358 | appending a value not yet listed keeps a list free of repeats |
| `EdgeLines.ScanLines` | backend/app.py:349-371 | after the loop over the line numbers, a line is in an edge's list exactly when it was already there or it is one of the scanned lines and touches the edge; lists stay duplicate-free |
| `EdgeLines.EdgeIds` | backend/app.py:349-376 | each edge's list is strictly increasing and holds exactly the lines having a record within the tolerance of that edge |
| `EdgeLines.BoundaryEdgeLines` | backend/app.py:292-378 | with fewer than four vertices the answer is empty; otherwise there are four entries, each with strictly increasing inline and crossline lists that hold exactly the lines coming within the tolerance of that edge |
| `EdgeLines.BoundaryEdgeLinesResponse` | backend/app.py:297-302 | the endpoint fails exactly when `survey_boundary` fails, and otherwise classifies the records against that boundary |
| `EdgeLines.FourCornerEdgesAnswer` | backend/app.py:298-302 | with four corner traces and a non-empty table the endpoint answers with four edge entries |
| `EdgeLines.FourCornerEdges` | backend/app.py:304-310 | edge k of the survey runs between the corners visited k-th and next in the order 0, 3, 1, 2 |
| `Grid.TraceOf` | backend/app.py:247-259 | an entry has one hover value per point, and hover value j shows the line and the coordinates of point j; the points are exactly the positions of the line's records |
| `Grid.Group` | backend/app.py:245-259 | at most one entry per id; every entry has at least two points, one hover value per point showing that point, and its points are the positions of its line's records |
| `Grid.GroupLists` | backend/app.py:245-259 | a line gets an entry exactly when it is among the ids and has at least two records |
| `Grid.GroupAscending` | backend/app.py:241-259 | grouping strictly ascending line numbers gives entries in strictly ascending order |
| `Grid.GridData` | backend/app.py:238-283 | the totals equal the list lengths; both lists are strictly increasing by id; a line is listed exactly when it has at least two records; every entry has at least two points and as many hover values as points |
| `Grid.LinesWithRowsAreListed` | backend/app.py:241-247 | every line that has a record is among the sorted distinct line numbers |
| `Grid.RowsKeepUniqueKeys` | backend/app.py:247-247 | selecting the rows of one line keeps (inline, crossline) keys unique |
| `Grid.GridLineCellsDistinct` | backend/app.py:99-106 | after deduplication the records of one inline lie on distinct crosslines, and those of one crossline on distinct inlines |

## Left out

- HTTP plumbing is not modelled: Flask routes, `jsonify`, CORS and `convert_to_native`. Each endpoint is a function from its inputs to the response values. `map_data` serves the table of `read_all_segy_metadata` unchanged, so `Metadata.ReadAllMetadata` covers it.
- File reads are parameters.
  - `segyio` opening and header indexing (lines 39-56, 84-93 and 152-174) are not modelled.
  - The four corner headers are a sequence of `CornerHeader`. The trace attributes are a sequence of `TraceHeader`. Header word 71 is the integer `sgsHeader`.
  - Which trace is which corner (`header[0]`, `header[-1]`, `header[-len(xlines)]`, `header[len(xlines) - 1]`) is left to the caller.
- Square roots and `np.angle` are inputs.
  - `len1` and `len2` (lines 181-182) are square roots, and `deg_1` (line 191) comes from `np.angle`. All three are given to `Survey.SurveyBoundary` in `Metrics`. `Survey.CornerMetrics` states how the two lengths relate to the corners, and lemmas that need this take it as a hypothesis.
  - `cdpx` and `cdpy` read the same four headers as the corner frame, so the lengths belong to those corners.
- Floating point is not modelled: values are exact reals. Rounding to two decimals (lines 185, 186 and 215) is left out. So are `area_sq_km` (line 188) and the `float`/`int` conversions.
- Strings are not modelled. This covers the range strings (lines 200-201 and 216-223) and the hover strings (lines 253 and 270). A hover entry is the `Grid.Hover` value holding the line number and coordinates that the string shows.
- Survey.BinSize: the line count is the number of distinct line numbers in the trace table. The source uses `len(segy_3d.ilines)` and `len(segy_3d.xlines)` from the file geometry, which is the same count for a regular survey; the file geometry is not modelled.
- Scaling.ApplySgs: integers are unbounded and coordinates are exact reals, so 32-bit wrap-around is not modelled. `segyio` returns the trace attributes of the all-traces path (lines 85-97) as 32-bit integer arrays, so there `value * sgs` with a positive scalar wraps once the product reaches 2^31. The corner path (line 61) multiplies Python integers and does not wrap. The model assumes products stay in range, where the two paths agree.
- Ordering.Unique: does not state that the values keep their order of first appearance. The body keeps that order, but every caller either sorts the result or tests only membership.
- Metadata.Rows: states which records belong to a line and, through `Metadata.RowsCount`, how many; it does not state that they keep table order. The body keeps table order.
- The frontend is outside `backend/app.py` and is not part of this model: labels, ticks, density filtering and selection.

## Findings

| source | as written | input that shows it | evidently intended | confidence | as-written member | corrected member |
|---|---|---|---|---|---|---|
| backend/app.py:192-193 | a negative `deg_1` maps to `270 + deg_1` | `deg_1 = -45`: corner 3 lies south-east of corner 0, and the code reports 225, which is south-west | `90 - deg_1`, the compass azimuth that the other two branches compute modulo 360; this gives 135 | medium, not executed | `Survey.OrientationAsWritten` | `Survey.Orientation` |

The branch as written mirrors the azimuth about the north-south axis for every negative
angle (`Survey.OrientationAsWrittenMirrorsNegative`); the two agree only for a direction
due south. `Survey.SurveyBoundaryAzimuth` carries this to the response of
`survey_boundary`. `Survey.OrientationSouthEast` exhibits the input. `Survey.AzimuthUnique` proves
the corrected map is the one value in [0, 360) that is congruent to `90 - deg_1`
modulo 360.
