# MVT geometry command encoder of JtsAdapter

This project models the part of `JtsAdapter` (mapbox-vector-tile-java) that
turns JTS geometries, already in tile coordinates, into Mapbox Vector Tile
features. A feature carries an id, a geometry type (POINT, LINESTRING,
POLYGON) and a command buffer. The buffer holds command headers
`(id & 0x7) | (count << 3)` for MoveTo (1), LineTo (2) and ClosePath (7).
Each header is followed by zig-zag encoded coordinate deltas taken against
a cursor that moves along the geometry.

Modules, one per concern of the source:

- `Encoding`: command headers and zig-zag encoding, as the encoder writes them and a decoder reads them back.
- `TileGeometry`: the geometry kinds (Point, MultiPoint, LineString, MultiLineString, Polygon, MultiPolygon, GeometryCollection) and `toGeomType`.
- `RingArea`: ring reversal and the exact integer shoelace area that stands for JTS's signed area.
- `CursorCodec`: the cursor (`Vec2d`) and the command list as classes, `moveCursor` and `equalAsInts`.
- `CommandEncoder`: `ptsToGeomCmds` and `linesToGeomCmds` as methods with loops. Each is proved equal to a specification function. The module also holds the buffer-capacity functions and the properties of both encoders.
- `TileDecoder`: a reader of command buffers, the partner that the round-trip lemmas use.
- `FeatureSpec`: `toFeature` and `toFeatures` as functions.
- `FeatureEncoder`: the same two operations as methods that move the cursor, proved equal to the functions of `FeatureSpec`.
- `FeatureProperties`, `BatchProperties`, `FeatureExamples`: what the two operations guarantee, and concrete encodings.
- `Flatten`: `flatFeatureList`, as written and as documented.

Behaviour of the code that the model reproduces:

- The cursor is reset to (0, 0) before each geometry the filter accepts, so deltas restart with every feature.
- Feature ids count the accepted geometries from 1. A geometry whose `toFeature` yields nothing still uses up its id.
- The empty-input guard of `ptsToGeomCmds` has no `return`, so a multipoint without coordinates encodes to `[MoveTo(0)]`.
- The same guard in `linesToGeomCmds` has no `return` either, and an empty line would fail on its first coordinate. The model therefore requires every line to hold at least one coordinate.
- The cursor keeps its last position even when the commands written on the way are discarded. This happens for a run that is too short or too long, and for a polygon invalidated by an interior ring.
- Rings are reversed in place, and the areas computed before the reversal are the ones compared afterwards.
- `flatFeatureList` reads the number of children to push from the root geometry, not from the collection it pops. See Findings.

## Model

| member | source | states |
|---|---|---|
| `Encoding.CmdHdrDecodes` | src/main/java/com/wdtinc/mapbox_vector_tile/adapt/jts/JtsAdapter.java:461 | a header written for a command and count reads back as that command's id and that count |
| `Encoding.CmdHdrFits` | src/main/java/com/wdtinc/mapbox_vector_tile/adapt/jts/JtsAdapter.java:501-504 | every header whose count is within CMD_HDR_LEN_MAX fits an unsigned 32-bit buffer entry |
| `Encoding.ZigZagRoundTrip` | src/main/java/com/wdtinc/mapbox_vector_tile/adapt/jts/JtsAdapter.java:531-532 | zig-zag decoding undoes the zig-zag encoding of a delta |
| `Encoding.ZigZagInjective` | src/main/java/com/wdtinc/mapbox_vector_tile/adapt/jts/JtsAdapter.java:531-532 | distinct deltas encode to distinct parameters |
| `Encoding.ZigZagFits` | src/main/java/com/wdtinc/mapbox_vector_tile/adapt/jts/JtsAdapter.java:531-532 | a delta below 2^30 in magnitude encodes to a non-negative Java int |
| `TileGeometry.ToGeomType` | src/main/java/com/wdtinc/mapbox_vector_tile/adapt/jts/JtsAdapter.java:123-140 | Point/MultiPoint map to POINT, LineString/MultiLineString to LINESTRING, Polygon/MultiPolygon to POLYGON, and only a plain collection to UNKNOWN (each an if-and-only-if) |
| `RingArea.Reverse` | src/main/java/com/wdtinc/mapbox_vector_tile/adapt/jts/JtsAdapter.java:311 | the reversed ring has the same length and holds the coordinate at index `n-1-i` at index `i` |
| `RingArea.ReverseNegatesArea` | src/main/java/com/wdtinc/mapbox_vector_tile/adapt/jts/JtsAdapter.java:309-312 | reversing a ring negates its signed area, so reversal is what fixes a wrong winding |
| `RingArea.EdgeSumReverse` | src/main/java/com/wdtinc/mapbox_vector_tile/adapt/jts/JtsAdapter.java:328-331 | the open shoelace sum of a reversed coordinate run is the negated sum |
| `RingArea.RoundsToZeroSmall` | src/main/java/com/wdtinc/mapbox_vector_tile/adapt/jts/JtsAdapter.java:305 | for areas below 2^31 in magnitude, `(int) Math.round(area) == 0` holds exactly for the areas 0 and -0.5 |
| `RingArea.RoundingDependsOnOrientation` | src/main/java/com/wdtinc/mapbox_vector_tile/adapt/jts/JtsAdapter.java:305 | the degenerate-area test is not symmetric: area +0.5 is kept and area -0.5 is dropped |
| `RingArea.RoundedAreaNearest` | src/main/java/com/wdtinc/mapbox_vector_tile/adapt/jts/JtsAdapter.java:303-305 | for doubled areas within the 32-bit range, `(int) Math.round(area)` is the integer nearest to the area, a half-way value rounded up |
| `RingArea.RoundedAreaWraps` | src/main/java/com/wdtinc/mapbox_vector_tile/adapt/jts/JtsAdapter.java:324 | for any area, the rounded value is a signed 32-bit int that agrees with the mathematical rounding modulo 2^32, as the `(int)` cast of the interior-ring test makes it |
| `CursorCodec.Cursor.constructor` | src/main/java/com/wdtinc/mapbox_vector_tile/adapt/jts/JtsAdapter.java:231 | a new cursor stands at the origin |
| `CursorCodec.Cursor.Set` | src/main/java/com/wdtinc/mapbox_vector_tile/adapt/jts/JtsAdapter.java:243 | after `set` the cursor stands at the given position |
| `CursorCodec.CmdList.constructor` | src/main/java/com/wdtinc/mapbox_vector_tile/adapt/jts/JtsAdapter.java:384 | a new command list is empty |
| `CursorCodec.CmdList.Add` | src/main/java/com/wdtinc/mapbox_vector_tile/adapt/jts/JtsAdapter.java:461 | appending adds exactly one entry at the end |
| `CursorCodec.CmdList.Set` | src/main/java/com/wdtinc/mapbox_vector_tile/adapt/jts/JtsAdapter.java:504 | back-patching replaces exactly the entry at the given index |
| `CursorCodec.MoveCursor` | src/main/java/com/wdtinc/mapbox_vector_tile/adapt/jts/JtsAdapter.java:528-535 | appends exactly the zig-zag x delta then the zig-zag y delta, leaves the earlier entries as they were, and leaves the cursor on the target |
| `CursorCodec.EqualAsInts` | src/main/java/com/wdtinc/mapbox_vector_tile/adapt/jts/JtsAdapter.java:544-546 | true exactly when the two positions are equal (coordinates are integers) |
| `CursorCodec.Deltas` | src/main/java/com/wdtinc/mapbox_vector_tile/adapt/jts/JtsAdapter.java:528-535 | visiting `k` points by successive cursor moves writes `2k` parameters |
| `CursorCodec.DecodeDeltas` | src/main/java/com/wdtinc/mapbox_vector_tile/adapt/jts/JtsAdapter.java:528-535 | reading parameters back as cursor moves yields one point per pair of parameters |
| `CursorCodec.DeltasDecode` | src/main/java/com/wdtinc/mapbox_vector_tile/adapt/jts/JtsAdapter.java:528-535 | the parameters written by successive cursor moves decode back to the visited points |
| `CursorCodec.DeltasFit` | src/main/java/com/wdtinc/mapbox_vector_tile/adapt/jts/JtsAdapter.java:531-532 | for coordinates within the tile range every parameter written fits a Java int |
| `CommandEncoder.Kept` | src/main/java/com/wdtinc/mapbox_vector_tile/adapt/jts/JtsAdapter.java:396-405 | duplicate suppression keeps at most as many points as it reads and always keeps the first |
| `CommandEncoder.KeptNoAdjacentDup` | src/main/java/com/wdtinc/mapbox_vector_tile/adapt/jts/JtsAdapter.java:400-405 | no kept point equals the point kept just before it |
| `CommandEncoder.KeptSameSet` | src/main/java/com/wdtinc/mapbox_vector_tile/adapt/jts/JtsAdapter.java:400-405 | duplicate suppression keeps exactly the positions of the input: nothing is lost, nothing added |
| `CommandEncoder.KeptLast` | src/main/java/com/wdtinc/mapbox_vector_tile/adapt/jts/JtsAdapter.java:400-405 | the last kept point is the last point read |
| `CommandEncoder.PtsToGeomCmds` | src/main/java/com/wdtinc/mapbox_vector_tile/adapt/jts/JtsAdapter.java:374-421 | the method returns the specification's buffer and leaves the cursor where the specification says: one MoveTo header for the `k` kept points and their `2k` parameters, or nothing when `k` exceeds CMD_HDR_LEN_MAX |
| `CommandEncoder.PtsCursorLast` | src/main/java/com/wdtinc/mapbox_vector_tile/adapt/jts/JtsAdapter.java:396-405 | after encoding points the cursor is on the last input point, or unmoved for no point |
| `CommandEncoder.PtsEmpty` | src/main/java/com/wdtinc/mapbox_vector_tile/adapt/jts/JtsAdapter.java:377-380 | as written, no coordinate yields the single header MoveTo with count 0, and the cursor stays put |
| `CommandEncoder.PtsGuardedHeader` | src/main/java/com/wdtinc/mapbox_vector_tile/adapt/jts/JtsAdapter.java:377-380 | with the guard returning, a non-empty point buffer starts with a MoveTo of count at least 1 followed by two parameters per point, and no coordinate yields nothing |
| `CommandEncoder.PtsCmdsLen` | src/main/java/com/wdtinc/mapbox_vector_tile/adapt/jts/JtsAdapter.java:384 | the point buffer never exceeds `geomCmdBuffLenPts(coordCount)` |
| `CommandEncoder.PtsBuffLenExact` | src/main/java/com/wdtinc/mapbox_vector_tile/adapt/jts/JtsAdapter.java:554-558 | `geomCmdBuffLenPts` of the number of points written is exactly the length of the point buffer: one MoveTo header and two parameters per point |
| `CommandEncoder.LinePath` | src/main/java/com/wdtinc/mapbox_vector_tile/adapt/jts/JtsAdapter.java:477-498 | the points a line visits start with its first coordinate and are no more than its coordinates |
| `CommandEncoder.LastStep` | src/main/java/com/wdtinc/mapbox_vector_tile/adapt/jts/JtsAdapter.java:489-498 | the final coordinate is added to the path at most once |
| `CommandEncoder.LineToRun` | src/main/java/com/wdtinc/mapbox_vector_tile/adapt/jts/JtsAdapter.java:474-498 | from a cursor on the first coordinate, appends the deltas of the path's later points, returns their count as the LineTo run length, and leaves the cursor on the path's last point |
| `CommandEncoder.FinishLine` | src/main/java/com/wdtinc/mapbox_vector_tile/adapt/jts/JtsAdapter.java:501-516 | a run length within `[minLineToLen, CMD_HDR_LEN_MAX]` patches the LineTo header and adds ClosePath when closing is enabled; any other length yields nothing |
| `CommandEncoder.LinesToGeomCmds` | src/main/java/com/wdtinc/mapbox_vector_tile/adapt/jts/JtsAdapter.java:437-517 | the method returns the specification's buffer `[MoveTo(1), dx, dy, LineTo(n), 2n params, ClosePath?]` or nothing, and moves the cursor to the path's last point |
| `CommandEncoder.LinePathNoAdjacentDup` | src/main/java/com/wdtinc/mapbox_vector_tile/adapt/jts/JtsAdapter.java:481-495 | within one line no emitted point repeats the point emitted before it |
| `CommandEncoder.LinePathSameSet` | src/main/java/com/wdtinc/mapbox_vector_tile/adapt/jts/JtsAdapter.java:477-498 | a line visits exactly the positions of its coordinates |
| `CommandEncoder.LineCloseDropsLast` | src/main/java/com/wdtinc/mapbox_vector_tile/adapt/jts/JtsAdapter.java:494-495 | with closing enabled, a final coordinate equal to the first is never emitted |
| `CommandEncoder.LinesCmdsEmpty` | src/main/java/com/wdtinc/mapbox_vector_tile/adapt/jts/JtsAdapter.java:501-516 | a line encodes to nothing exactly when its run length is outside `[minLineToLen, CMD_HDR_LEN_MAX]` |
| `CommandEncoder.LinesCmdsLen` | src/main/java/com/wdtinc/mapbox_vector_tile/adapt/jts/JtsAdapter.java:451 | the line buffer never exceeds `geomCmdBuffLenLines(coordCount, closeEnabled)` |
| `CommandEncoder.LinesBuffLenExact` | src/main/java/com/wdtinc/mapbox_vector_tile/adapt/jts/JtsAdapter.java:567-571 | `geomCmdBuffLenLines` of the number of points of a written line's path is exactly the length of its buffer: MoveTo and LineTo headers, the optional ClosePath and two parameters per point |
| `TileDecoder.DecodePoints` | src/main/java/com/wdtinc/mapbox_vector_tile/adapt/jts/JtsAdapter.java:412-414 | a point buffer that reads back yields as many points as its MoveTo header counts |
| `TileDecoder.DecodeOpenLine` | src/main/java/com/wdtinc/mapbox_vector_tile/adapt/jts/JtsAdapter.java:461-504 | a line buffer that reads back yields one point plus as many as its LineTo header counts |
| `TileDecoder.DecodeLine` | src/main/java/com/wdtinc/mapbox_vector_tile/adapt/jts/JtsAdapter.java:506-508 | a closed line that reads back ends with the ClosePath header |
| `TileDecoder.PairDecodes` | src/main/java/com/wdtinc/mapbox_vector_tile/adapt/jts/JtsAdapter.java:528-535 | one delta pair read back from the cursor gives the target position |
| `TileDecoder.OpenLineDecodes` | src/main/java/com/wdtinc/mapbox_vector_tile/adapt/jts/JtsAdapter.java:461-504 | a buffer of MoveTo, a delta pair, a LineTo header and its parameters reads back as the first point followed by the decoded parameters |
| `TileDecoder.ClosedLineDecodes` | src/main/java/com/wdtinc/mapbox_vector_tile/adapt/jts/JtsAdapter.java:506-508 | the trailing ClosePath header does not change the points read back |
| `TileDecoder.PointsRoundTrip` | src/main/java/com/wdtinc/mapbox_vector_tile/adapt/jts/JtsAdapter.java:374-421 | whenever the number of kept points fits a header, the point buffer reads back, from the same cursor, as exactly the kept points |
| `TileDecoder.LineRoundTrip` | src/main/java/com/wdtinc/mapbox_vector_tile/adapt/jts/JtsAdapter.java:437-517 | an accepted line buffer reads back, from the same cursor, as exactly the path of the line |
| `FeatureSpec.KeptRingLong` | src/main/java/com/wdtinc/mapbox_vector_tile/adapt/jts/JtsAdapter.java:303-307 | a ring whose area does not round to zero has at least three coordinates |
| `FeatureSpec.HoleEncode` | src/main/java/com/wdtinc/mapbox_vector_tile/adapt/jts/JtsAdapter.java:320-339 | an interior ring is left alone when its area rounds to zero and oriented otherwise; it leaves the polygon valid exactly when it is degenerate or smaller in area than the exterior |
| `FeatureSpec.HoleStep` | src/main/java/com/wdtinc/mapbox_vector_tile/adapt/jts/JtsAdapter.java:318-340 | one turn of the interior-ring loop changes only the current ring, keeps the commands already written as a prefix, and keeps the polygon valid exactly when that ring fits |
| `FeatureSpec.HolesRun` | src/main/java/com/wdtinc/mapbox_vector_tile/adapt/jts/JtsAdapter.java:318-340 | the interior-ring loop keeps the number of rings |
| `FeatureSpec.PolysRun` | src/main/java/com/wdtinc/mapbox_vector_tile/adapt/jts/JtsAdapter.java:294-346 | the polygon loop keeps the number of polygons; what it writes is stated by `PolysRunCmds` |
| `FeatureSpec.EncodeFeature` | src/main/java/com/wdtinc/mapbox_vector_tile/adapt/jts/JtsAdapter.java:262-361 | a feature is returned exactly when the geometry has a known type and encodes to at least one command, and it then carries the given id, that type and exactly the accumulated commands; a collection yields nothing and leaves cursor and geometry alone |
| `FeatureSpec.BatchRun` | src/main/java/com/wdtinc/mapbox_vector_tile/adapt/jts/JtsAdapter.java:235-248 | the batch loop keeps the number of geometries |
| `FeatureEncoder.HoleToGeomCmds` | src/main/java/com/wdtinc/mapbox_vector_tile/adapt/jts/JtsAdapter.java:318-340 | one interior ring returns the commands, cursor, ring and validity of the specification |
| `FeatureEncoder.HolesToGeomCmds` | src/main/java/com/wdtinc/mapbox_vector_tile/adapt/jts/JtsAdapter.java:318-340 | the interior-ring loop, stopping at the first ring that invalidates the polygon, ends in the specification's state |
| `FeatureEncoder.PolyToGeomCmds` | src/main/java/com/wdtinc/mapbox_vector_tile/adapt/jts/JtsAdapter.java:296-345 | one polygon contributes the specification's commands and leaves cursor and rings as it says |
| `FeatureEncoder.PolysToGeomCmds` | src/main/java/com/wdtinc/mapbox_vector_tile/adapt/jts/JtsAdapter.java:291-346 | the polygon loop ends in the specification's state |
| `FeatureEncoder.LinesToFeatureCmds` | src/main/java/com/wdtinc/mapbox_vector_tile/adapt/jts/JtsAdapter.java:284-289 | the line loop concatenates each part's encoding with minimum run length 1 |
| `FeatureEncoder.ToFeature` | src/main/java/com/wdtinc/mapbox_vector_tile/adapt/jts/JtsAdapter.java:262-361 | `toFeature` returns the specification's feature (`None` for null), cursor and geometry |
| `FeatureEncoder.AcceptedToFeature` | src/main/java/com/wdtinc/mapbox_vector_tile/adapt/jts/JtsAdapter.java:243-247 | an accepted geometry is encoded from the origin with the current id, giving the specification's feature as a list of at most one and the geometry as the encoder leaves it |
| `FeatureEncoder.ToFeatures` | src/main/java/com/wdtinc/mapbox_vector_tile/adapt/jts/JtsAdapter.java:222-251 | `toFeatures` on a list returns the specification's features and leaves each geometry as the specification does; only the geometries the filter accepts need be encodable |
| `FeatureEncoder.GeometryToFeatures` | src/main/java/com/wdtinc/mapbox_vector_tile/adapt/jts/JtsAdapter.java:206-209 | `toFeatures` on one geometry is the flat list followed by the batch, or `None` when flattening fails; only accepted geometries of the flat list need be encodable |
| `FeatureProperties.OrientShellArea` | src/main/java/com/wdtinc/mapbox_vector_tile/adapt/jts/JtsAdapter.java:309-312 | the exterior ring passed on has the absolute value of its area: non-negative |
| `FeatureProperties.OrientHoleArea` | src/main/java/com/wdtinc/mapbox_vector_tile/adapt/jts/JtsAdapter.java:328-331 | an interior ring passed on has non-positive area of unchanged magnitude |
| `FeatureProperties.HolesValid` | src/main/java/com/wdtinc/mapbox_vector_tile/adapt/jts/JtsAdapter.java:318-340 | the polygon stays valid exactly when every remaining interior ring fits |
| `FeatureProperties.HolesKeepBefore` | src/main/java/com/wdtinc/mapbox_vector_tile/adapt/jts/JtsAdapter.java:318-340 | the interior-ring loop never touches rings before its starting index |
| `FeatureProperties.HolesOriented` | src/main/java/com/wdtinc/mapbox_vector_tile/adapt/jts/JtsAdapter.java:322-331 | in a valid polygon, every interior ring keeps its value if its area rounds to zero and is oriented otherwise |
| `FeatureProperties.HolesExtend` | src/main/java/com/wdtinc/mapbox_vector_tile/adapt/jts/JtsAdapter.java:339 | interior rings only append to the polygon's commands |
| `FeatureProperties.PolyDegenerate` | src/main/java/com/wdtinc/mapbox_vector_tile/adapt/jts/JtsAdapter.java:303-307 | a polygon whose exterior rounds to zero area contributes nothing, leaves the cursor and the polygon unchanged |
| `FeatureProperties.PolyDominated` | src/main/java/com/wdtinc/mapbox_vector_tile/adapt/jts/JtsAdapter.java:333-337 | a polygon with an interior ring at least as large as its exterior contributes no command |
| `FeatureProperties.PolyInvalidMovesCursor` | src/main/java/com/wdtinc/mapbox_vector_tile/adapt/jts/JtsAdapter.java:314-345 | when the first interior ring invalidates the polygon, no command is kept, yet the cursor has moved to the end of the exterior ring and both rings are left reoriented |
| `FeatureProperties.PolyStartsWithShell` | src/main/java/com/wdtinc/mapbox_vector_tile/adapt/jts/JtsAdapter.java:314-344 | a valid polygon's commands begin with its oriented exterior ring encoded with minimum run length 2 |
| `FeatureProperties.PolyWinding` | src/main/java/com/wdtinc/mapbox_vector_tile/adapt/jts/JtsAdapter.java:309-331 | in a valid polygon, the exterior ring passed on has non-negative area and every non-degenerate interior ring non-positive area |
| `FeatureProperties.PointFeatureDecodes` | src/main/java/com/wdtinc/mapbox_vector_tile/adapt/jts/JtsAdapter.java:279-282 | a point or multipoint whose kept points fit a header yields a POINT feature with the given id whose commands read back as the kept points |
| `FeatureProperties.LineFeatureDecodes` | src/main/java/com/wdtinc/mapbox_vector_tile/adapt/jts/JtsAdapter.java:284-289 | a line with at least one LineTo step yields a LINESTRING feature with the given id whose commands read back as its path |
| `FeatureProperties.ShortLineNoFeature` | src/main/java/com/wdtinc/mapbox_vector_tile/adapt/jts/JtsAdapter.java:350-352 | a line with no LineTo step yields no feature |
| `FeatureProperties.EmptyMultiPointFeature` | src/main/java/com/wdtinc/mapbox_vector_tile/adapt/jts/JtsAdapter.java:377-380 | as written, a multipoint without coordinates yields a POINT feature whose only command is MoveTo with count 0 |
| `FeatureProperties.PolygonFeatureDecodes` | src/main/java/com/wdtinc/mapbox_vector_tile/adapt/jts/JtsAdapter.java:291-346 | a polygon without interior rings yields a POLYGON feature with the given id whose commands read back, closed, as its oriented exterior ring |
| `FeatureProperties.PolysSkipEmpty` | src/main/java/com/wdtinc/mapbox_vector_tile/adapt/jts/JtsAdapter.java:294-307 | a polygon that contributes no command leaves the commands as they are, and the polygons after it are encoded from the cursor it leaves |
| `FeatureProperties.PolysRunCmds` | src/main/java/com/wdtinc/mapbox_vector_tile/adapt/jts/JtsAdapter.java:291-346 | the polygon loop appends, polygon by polygon, each polygon's commands encoded from where the previous one left the cursor |
| `FeatureProperties.MultiPolygonFeature` | src/main/java/com/wdtinc/mapbox_vector_tile/adapt/jts/JtsAdapter.java:291-360 | a multipolygon yields a POLYGON feature holding the concatenated commands of its polygons, or none when no polygon contributes any |
| `FeatureProperties.MultiPolygonFirstEmpty` | src/main/java/com/wdtinc/mapbox_vector_tile/adapt/jts/JtsAdapter.java:294-346 | a first polygon that is degenerate or invalid leaves the feature to the second polygon, encoded from the cursor the first one leaves |
| `FeatureProperties.PartsRunCmds` | src/main/java/com/wdtinc/mapbox_vector_tile/adapt/jts/JtsAdapter.java:284-289 | the line loop appends, line by line, each line's commands encoded from where the previous one left the cursor |
| `FeatureProperties.MultiLineStringFeature` | src/main/java/com/wdtinc/mapbox_vector_tile/adapt/jts/JtsAdapter.java:284-360 | a multilinestring yields a LINESTRING feature holding the concatenated commands of its lines, or none when no line has a LineTo step |
| `FeatureProperties.HoleEncodeCmds` | src/main/java/com/wdtinc/mapbox_vector_tile/adapt/jts/JtsAdapter.java:320-339 | an interior ring that is degenerate or too large writes nothing and keeps the cursor; any other ring writes its oriented ring as a closed line with at least two LineTo steps |
| `FeatureProperties.HolesCmdsSkipsDegenerate` | src/main/java/com/wdtinc/mapbox_vector_tile/adapt/jts/JtsAdapter.java:324-326 | a degenerate interior ring is absent from the output: the rings after it are written as if it were not there |
| `FeatureProperties.HolesCmdsFitting` | src/main/java/com/wdtinc/mapbox_vector_tile/adapt/jts/JtsAdapter.java:328-339 | a fitting, non-degenerate interior ring writes its closed encoding, and the next ring starts from the cursor it leaves |
| `FeatureProperties.HolesRunCmds` | src/main/java/com/wdtinc/mapbox_vector_tile/adapt/jts/JtsAdapter.java:318-340 | the interior-ring loop appends, ring by ring, each ring's commands from the cursor the previous one leaves, and stops at the first ring that does not fit |
| `FeatureProperties.PolyWithHoles` | src/main/java/com/wdtinc/mapbox_vector_tile/adapt/jts/JtsAdapter.java:296-344 | a polygon whose exterior is kept and whose interior rings all fit writes exactly its oriented exterior ring, then its interior rings |
| `FeatureProperties.LinePathArea` | src/main/java/com/wdtinc/mapbox_vector_tile/adapt/jts/JtsAdapter.java:481-500 | the points a line or ring is written as have the signed area of its coordinates: repeated points and the closing point add nothing |
| `FeatureProperties.ClosedRingDecodedArea` | src/main/java/com/wdtinc/mapbox_vector_tile/adapt/jts/JtsAdapter.java:437-517 | whenever a ring is written, a decoder reads back a ring of the same signed area |
| `FeatureProperties.PolygonDecodedWinding` | src/main/java/com/wdtinc/mapbox_vector_tile/adapt/jts/JtsAdapter.java:309-313 | the exterior ring a decoder reads back from a polygon feature has non-negative signed area, the magnitude of the ring given |
| `BatchProperties.Accepted` | src/main/java/com/wdtinc/mapbox_vector_tile/adapt/jts/JtsAdapter.java:237-241 | the count of geometries the filter accepts is at most the list's length, zero exactly when the filter rejects every geometry, and the full length exactly when it accepts every one |
| `BatchProperties.BatchRunFeatures` | src/main/java/com/wdtinc/mapbox_vector_tile/adapt/jts/JtsAdapter.java:236-248 | from any index, for any per-geometry encoder, the loop appends exactly the features of the reference batch for the geometries ahead |
| `BatchProperties.BatchRunNextId` | src/main/java/com/wdtinc/mapbox_vector_tile/adapt/jts/JtsAdapter.java:239-244 | from any index the loop advances the id by the number of geometries ahead that the filter accepts, whatever the encoder returns for them |
| `BatchProperties.BatchRunValues` | src/main/java/com/wdtinc/mapbox_vector_tile/adapt/jts/JtsAdapter.java:236-248 | from any index the loop leaves the geometries behind it alone and rewrites each geometry ahead exactly when the filter accepts it |
| `BatchProperties.BatchIsSpec` | src/main/java/com/wdtinc/mapbox_vector_tile/adapt/jts/JtsAdapter.java:222-251 | `toFeatures` on a list equals the reference batch: ids from 1, a cursor at the origin for every accepted geometry, rejected geometries skipped whatever they hold |
| `BatchProperties.FromOriginWellFormed` | src/main/java/com/wdtinc/mapbox_vector_tile/adapt/jts/JtsAdapter.java:243-247 | every feature `toFeature` returns carries the id it was handed, a known type and at least one command |
| `BatchProperties.BatchSpecIds` | src/main/java/com/wdtinc/mapbox_vector_tile/adapt/jts/JtsAdapter.java:233-247 | for an encoder that stamps the id it is handed, a known type and at least one command on every feature: there are no more features than accepted geometries, their ids lie in `[id, id + accepted)` and strictly increase |
| `BatchProperties.BatchNoneAccepted` | src/main/java/com/wdtinc/mapbox_vector_tile/adapt/jts/JtsAdapter.java:237-241 | a filter that accepts nothing yields no feature and consumes no id |
| `BatchProperties.PrimitiveGeometry` | src/main/java/com/wdtinc/mapbox_vector_tile/adapt/jts/JtsAdapter.java:206-209 | a single primitive geometry yields at most one feature, id 1, encoded from the origin, and none when rejected, whatever it holds |
| `BatchProperties.GeometryIds` | src/main/java/com/wdtinc/mapbox_vector_tile/adapt/jts/JtsAdapter.java:206-251 | the features of any geometry have ids from 1 that strictly increase, a known type and at least one command |
| `FeatureExamples.PointFeature` | src/main/java/com/wdtinc/mapbox_vector_tile/adapt/jts/JtsAdapter.java:279-282 | any single point becomes a POINT feature with the given id whose commands are MoveTo(1) followed by the point's delta from the cursor |
| `FeatureExamples.PointExample` | src/main/java/com/wdtinc/mapbox_vector_tile/adapt/jts/JtsAdapter.java:279-282 | the point (25, 17) becomes the commands `[9, 50, 34]` |
| `FeatureExamples.OneCoordLine` | src/main/java/com/wdtinc/mapbox_vector_tile/adapt/jts/JtsAdapter.java:445-447 | a line of one coordinate yields no feature |
| `FeatureExamples.BatchOfTwo` | src/main/java/com/wdtinc/mapbox_vector_tile/adapt/jts/JtsAdapter.java:235-248 | two accepted geometries become features 1 and 2, each encoded from the origin |
| `FeatureExamples.IdGapExample` | src/main/java/com/wdtinc/mapbox_vector_tile/adapt/jts/JtsAdapter.java:243-247 | a one-coordinate line before a point, both accepted, uses up id 1: the only feature is the point, with id 2 and the commands MoveTo(1) and its delta from the origin |
| `Flatten.FlatFeatureList` | src/main/java/com/wdtinc/mapbox_vector_tile/adapt/jts/JtsAdapter.java:159-191 | the stack loop returns the specification's flat list, or `None` where the source throws |
| `Flatten.FlatOnlyPrimitives` | src/main/java/com/wdtinc/mapbox_vector_tile/adapt/jts/JtsAdapter.java:170-177 | the flat list holds only Point, MultiPoint, LineString, MultiLineString, Polygon and MultiPolygon |
| `Flatten.FlatPrimitive` | src/main/java/com/wdtinc/mapbox_vector_tile/adapt/jts/JtsAdapter.java:166-177 | a primitive flattens to the list of itself |
| `Flatten.FlatOneLevel` | src/main/java/com/wdtinc/mapbox_vector_tile/adapt/jts/JtsAdapter.java:179-185 | a collection of primitives flattens to its children in reverse order, the stack's pop order |
| `Flatten.FlatNestedFewer` | src/main/java/com/wdtinc/mapbox_vector_tile/adapt/jts/JtsAdapter.java:182 | as written, a nested collection with fewer children than the root makes flattening fail |
| `Flatten.FlatNestedMore` | src/main/java/com/wdtinc/mapbox_vector_tile/adapt/jts/JtsAdapter.java:182 | as written, a nested collection with more children than the root loses the children beyond the root's count |
| `Flatten.FlatIntendedLeaves` | src/main/java/com/wdtinc/mapbox_vector_tile/adapt/jts/JtsAdapter.java:142-158 | the documented flattening outputs every primitive of the tree, in the order the stack pops them |
| `Flatten.FlatNestedDisagrees` | src/main/java/com/wdtinc/mapbox_vector_tile/adapt/jts/JtsAdapter.java:182 | on a nested collection with fewer children than the root, the code as written fails while the documented flattening outputs both primitives |

## Left out

- `createTileGeom` (transformation, rounding and simplification on doubles) and `flatIntersection` (JTS validity checks, intersection, exception handling, logging) are not part of this model. They are foreign library calls on floating point.
- Coordinates are integers, as `createTileGeom` leaves them. The `(int)` casts of `moveCursor` and `equalAsInts`, and `Coordinate.equals`, are therefore exact comparisons.
- `CGAlgorithms.signedArea` and `Math.round` on doubles are replaced by the exact integer shoelace sum. This is twice the area, with JTS's sign. `(int) Math.round` of half of it is modelled exactly, 32-bit cast included.
- Java `int` overflow in the deltas is excluded: coordinates lie in `[-2^29, 2^29)`, so every delta and zig-zag value fits. Feature ids are unbounded integers, so their overflow is not modelled.
- `filter.accept` is a function parameter. The tags written by `userDataConverter.addTags`, `MvtLayerProps` and the protobuf builder are not modelled: a feature is a record of id, type and commands.
- `GeomCmd`, `ZigZag`, `Vec2d`, `MvtUtil`, `CoordinateArrays` and the JTS geometry classes are not part of this model. Their behaviour is stated where it is used: the header layout, zig-zag encoding, the cursor class, `shouldClosePath` as "type is POLYGON", and ring reversal.
- CommandEncoder.LinesToGeomCmds: a line with no coordinate is excluded by a precondition, because the source fails on it at the first coordinate instead of returning.
- FeatureEncoder.ToFeature: polygon rings are values, not arrays shared with the caller's geometry. The in-place reversal is captured by returning the geometry as it stands afterwards; aliasing between rings and the caller's other references is not captured.
- FeatureEncoder.ToFeatures: for the same reason, the rewritten geometries come back as a result instead of being changed in the caller's list.
- FeatureEncoder.ToFeatures: an accepted geometry holding a line without coordinates is excluded by a precondition, because the source fails on it; geometries the filter rejects are not constrained.
- `TileGeometry.Point` always holds one coordinate, so an empty JTS Point is not represented. The source encodes it, like an empty multipoint, to the single command MoveTo with count 0 and returns a feature; `EmptyMultiPointFeature` states that behaviour for the multipoint.
- `linesToGeomCmds` is split into `LineToRun` (the point loop and the final coordinate) and `FinishLine` (the header patch and ClosePath). `LinesToGeomCmds` composes the two in source order.
- Exceptions are not modelled as such: a `null` feature and the index failure of `flatFeatureList` become `None`.

## Findings

| source | as written | input that shows it | evidently intended | confidence | as-written member | corrected member |
|---|---|---|---|---|---|---|
| src/main/java/com/wdtinc/mapbox_vector_tile/adapt/jts/JtsAdapter.java:182 | `nextGeomCount = geom.getNumGeometries()` reads the child count of the root for every collection popped | a collection holding a one-child collection and a point: the inner collection is asked for a second child and the call throws; an inner collection with three children under a root of two loses its third child | `nextGeom.getNumGeometries()`: every collection pushes all of its own children, so every primitive comes out, as the method's documentation says | high, not executed | `Flatten.FlatNestedFewer` | `Flatten.FlatIntendedLeaves` |
| src/main/java/com/wdtinc/mapbox_vector_tile/adapt/jts/JtsAdapter.java:377-380 | the empty-coordinates guard evaluates `Collections.emptyList()` without returning it | a MultiPoint with no coordinate: `ptsToGeomCmds` returns `[MoveTo(0)]`, and `toFeature` emits a POINT feature with that single header | `return Collections.emptyList();`: no command, hence no feature | high, not executed | `FeatureProperties.EmptyMultiPointFeature` | `CommandEncoder.PtsGuardedHeader` |

The rest of the model follows the code as written: `GeometryToFeatures` uses the as-written flattening and `ToFeature` uses the as-written point encoder. The corrected definitions (`FlatIntended`, `PtsCmdsGuarded`) stand beside them with their intended properties proved.
