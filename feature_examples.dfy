/** Concrete encodings that show the behaviours of `toFeature` and
    `toFeatures` a caller can observe. */
module FeatureExamples {
  import opened Wrappers
  import opened TileGeometry
  import opened Encoding
  import opened CursorCodec
  import opened CommandEncoder
  import opened FeatureSpec
  import opened BatchProperties

  /** A single point is written as MoveTo(1) and one delta pair. */
  lemma OnePoint(cursor: Coord, c: Coord)
    ensures PtsCmds(cursor, [c]).cmds == [CmdHdr(MoveTo, 1)] + DeltaPair(cursor, c)
  {
    assert Kept([c], 1) == [c];
    assert [c][..0] == [];
  }

  /** A point becomes a point feature of MoveTo(1) and one delta pair. */
  lemma PointFeature(cursor: Coord, c: Coord, id: int)
    ensures EncodeFeature(cursor, Point(c), id).feature
      == Some(Feature(id, POINT, [CmdHdr(MoveTo, 1)] + DeltaPair(cursor, c)))
  {
    var cmds := [CmdHdr(MoveTo, 1)] + DeltaPair(cursor, c);
    assert GeomCmds(cursor, Point(c)).cmds == cmds by {
      OnePoint(cursor, c);
      assert PointCoords(Point(c)) == [c];
    }
  }

  /** A point at (25, 17) seen from the origin: MoveTo(1), then the zig-zag
      encoded deltas 50 and 34. */
  lemma PointExample()
    ensures EncodeFeature(Coord(0, 0), Point(Coord(25, 17)), 7).feature
      == Some(Feature(7, POINT, [9, 50, 34]))
  {
    PointFeature(Coord(0, 0), Coord(25, 17), 7);
    assert DeltaPair(Coord(0, 0), Coord(25, 17)) == [50, 34];
    assert CmdHdr(MoveTo, 1) == 9;
    assert [CmdHdr(MoveTo, 1)] + DeltaPair(Coord(0, 0), Coord(25, 17)) == [9, 50, 34];
  }

  /** A line of one coordinate has no LineTo and encodes to nothing. */
  lemma OneCoordLine(cursor: Coord, c: Coord, id: int)
    ensures EncodeFeature(cursor, LineString([c]), id).feature == None
  {
    assert Kept([c], 1) == [c];
    assert LinePath([c], false) == [c];
    var e := LinesCmds(cursor, [c], false, 1);
    assert e.cmds == [];
    assert PartsRun([[c]], false, 0, Encoded([], cursor)) == PartsRun([[c]], false, 1, Encoded([], e.cursor));
  }

  /** A batch of two accepted geometries: each encoded from the origin, with
      ids 1 and 2. */
  lemma BatchOfTwo(a: Geometry, b: Geometry, accept: Geometry -> bool)
    requires LinesNonEmpty(a) && LinesNonEmpty(b) && accept(a) && accept(b)
    ensures EncodeBatch([a, b], accept).features
      == OptionList(EncodeFeature(Coord(0, 0), a, 1).feature) + OptionList(EncodeFeature(Coord(0, 0), b, 2).feature)
  {
    BatchIsSpec([a, b], accept);
    var fa := OptionList(EncodeFeature(Coord(0, 0), a, 1).feature);
    var fb := OptionList(EncodeFeature(Coord(0, 0), b, 2).feature);
    assert [a, b][1..] == [b];
    assert [b][1..] == [];
    assert BatchSpec(FeatureFromOrigin, [b], accept, 2) == fb + [];
    assert BatchSpec(FeatureFromOrigin, [a, b], accept, 1) == fa + (fb + []);
    assert fb + [] == fb;
  }

  /** A line of one coordinate encodes to nothing, yet it consumes id 1:
      the point after it becomes feature 2. */
  lemma IdGapExample(c: Coord, q: Coord, accept: Geometry -> bool)
    requires accept(LineString([c])) && accept(Point(q))
    ensures EncodeBatch([LineString([c]), Point(q)], accept).features
      == [Feature(2, POINT, [CmdHdr(MoveTo, 1)] + DeltaPair(Coord(0, 0), q))]
  {
    BatchOfTwo(LineString([c]), Point(q), accept);
    OneCoordLine(Coord(0, 0), c, 1);
    PointFeature(Coord(0, 0), q, 2);
  }
}
