/** Properties of the polygon rules, the feature record and the id
    assignment of a batch. */
module FeatureProperties {
  import opened Wrappers
  import opened TileGeometry
  import opened Encoding
  import opened CursorCodec
  import opened RingArea
  import opened CommandEncoder
  import opened FeatureSpec
  import opened TileDecoder

  // ---------------------------------------------------------------------
  // Winding

  /** The exterior ring is encoded with non-negative signed area: its
      magnitude is kept, its sign made positive. */
  lemma OrientShellArea(s: seq<Coord>)
    ensures TwiceSignedArea(OrientShell(s)) == Abs(TwiceSignedArea(s))
  {
    ReverseNegatesArea(s);
  }

  /** An interior ring is encoded with non-positive signed area. */
  lemma OrientHoleArea(h: seq<Coord>)
    ensures TwiceSignedArea(OrientHole(h)) <= 0
    ensures Abs(TwiceSignedArea(OrientHole(h))) == Abs(TwiceSignedArea(h))
  {
    ReverseNegatesArea(h);
  }

  // ---------------------------------------------------------------------
  // Interior rings

  /** The polygon stays valid exactly when every remaining interior ring
      fits inside the exterior. */
  lemma {:induction false} HolesValid(ext: int, i: nat, st: HoleState)
    requires i <= |st.holes| && st.valid
    ensures HolesRun(ext, i, st).valid <==> forall k :: i <= k < |st.holes| ==> HoleFits(ext, st.holes[k])
    decreases |st.holes| - i
  {
    if i < |st.holes| {
      var st' := HoleStep(ext, i, st);
      if st'.valid {
        HolesValid(ext, i + 1, st');
      }
    }
  }

  /** The interior-ring loop never touches the rings before `i`. */
  lemma {:induction false} HolesKeepBefore(ext: int, i: nat, st: HoleState)
    requires i <= |st.holes|
    ensures var r := HolesRun(ext, i, st);
      forall k :: 0 <= k < i ==> r.holes[k] == st.holes[k]
    decreases |st.holes| - i
  {
    if i < |st.holes| && st.valid {
      var st' := HoleStep(ext, i, st);
      assert HolesRun(ext, i, st) == HolesRun(ext, i + 1, st');
      HolesKeepBefore(ext, i + 1, st');
    }
  }

  /** In a polygon that stays valid, every interior ring from `i` on is
      left as it was when its area rounds to zero and oriented otherwise. */
  lemma {:induction false} HolesOriented(ext: int, i: nat, st: HoleState)
    requires i <= |st.holes|
    ensures var r := HolesRun(ext, i, st);
      r.valid ==> forall k :: i <= k < |st.holes| ==>
        r.holes[k] == if RoundsToZero(TwiceSignedArea(st.holes[k])) then st.holes[k] else OrientHole(st.holes[k])
    decreases |st.holes| - i
  {
    if i < |st.holes| && st.valid {
      var st' := HoleStep(ext, i, st);
      HolesOriented(ext, i + 1, st');
      HolesKeepBefore(ext, i + 1, st');
    }
  }

  /** The interior-ring loop only appends to the polygon's commands. */
  lemma {:induction false} HolesExtend(ext: int, i: nat, st: HoleState)
    requires i <= |st.holes|
    ensures st.cmds <= HolesRun(ext, i, st).cmds
    decreases |st.holes| - i
  {
    if i < |st.holes| && st.valid {
      HolesExtend(ext, i + 1, HoleStep(ext, i, st));
    }
  }

  // ---------------------------------------------------------------------
  // One polygon

  /** A polygon whose exterior area rounds to zero contributes nothing, does
      not move the cursor and is left as it was. */
  lemma PolyDegenerate(cursor: Coord, p: Poly)
    requires RoundsToZero(TwiceSignedArea(p.shell))
    ensures PolyEncode(cursor, p) == PolyResult([], cursor, p)
  {
  }

  /** A polygon with an interior ring at least as large as its exterior
      contributes nothing. */
  lemma PolyDominated(cursor: Coord, p: Poly, k: nat)
    requires k < |p.holes| && !HoleFits(TwiceSignedArea(p.shell), p.holes[k])
    ensures PolyEncode(cursor, p).cmds == []
  {
    var ext := TwiceSignedArea(p.shell);
    if !RoundsToZero(ext) {
      KeptRingLong(p.shell);
      var e := LinesCmds(cursor, OrientShell(p.shell), true, 2);
      HolesValid(ext, 0, HoleState(e.cmds, e.cursor, p.holes, true));
    }
  }

  /** A polygon invalidated by its first interior ring contributes no
      commands, yet the cursor has moved to the end of its exterior ring,
      which was encoded before the interior ring was examined. */
  lemma PolyInvalidMovesCursor(cursor: Coord, p: Poly)
    requires !RoundsToZero(TwiceSignedArea(p.shell))
    requires |p.holes| >= 1 && !HoleFits(TwiceSignedArea(p.shell), p.holes[0])
    ensures var r := PolyEncode(cursor, p);
      var path := LinePath(OrientShell(p.shell), true);
      && r.cmds == []
      && r.cursor == path[|path| - 1]
      && r.poly == Poly(OrientShell(p.shell), p.holes[0 := OrientHole(p.holes[0])])
  {
    var ext := TwiceSignedArea(p.shell);
    KeptRingLong(p.shell);
    var e := LinesCmds(cursor, OrientShell(p.shell), true, 2);
    var st := HoleState(e.cmds, e.cursor, p.holes, true);
    assert HolesRun(ext, 0, st) == HolesRun(ext, 1, HoleStep(ext, 0, st));
  }

  /** A polygon whose exterior is kept and whose interior rings all fit
      contributes the exterior ring's commands first, then those of its
      rings. */
  lemma PolyStartsWithShell(cursor: Coord, p: Poly)
    requires !RoundsToZero(TwiceSignedArea(p.shell))
    requires forall k :: 0 <= k < |p.holes| ==> HoleFits(TwiceSignedArea(p.shell), p.holes[k])
    ensures LinesCmds(cursor, OrientShell(p.shell), true, 2).cmds <= PolyEncode(cursor, p).cmds
  {
    var ext := TwiceSignedArea(p.shell);
    KeptRingLong(p.shell);
    var e := LinesCmds(cursor, OrientShell(p.shell), true, 2);
    HolesValid(ext, 0, HoleState(e.cmds, e.cursor, p.holes, true));
    HolesExtend(ext, 0, HoleState(e.cmds, e.cursor, p.holes, true));
  }

  /** After a valid polygon is encoded, its exterior ring has non-negative
      and every interior ring whose area does not round to zero has
      non-positive signed area. */
  lemma PolyWinding(cursor: Coord, p: Poly)
    requires !RoundsToZero(TwiceSignedArea(p.shell))
    requires forall k :: 0 <= k < |p.holes| ==> HoleFits(TwiceSignedArea(p.shell), p.holes[k])
    ensures var q := PolyEncode(cursor, p).poly;
      && TwiceSignedArea(q.shell) >= 0
      && forall k :: 0 <= k < |q.holes| ==> RoundsToZero(TwiceSignedArea(p.holes[k])) || TwiceSignedArea(q.holes[k]) <= 0
  {
    var ext := TwiceSignedArea(p.shell);
    KeptRingLong(p.shell);
    OrientShellArea(p.shell);
    var e := LinesCmds(cursor, OrientShell(p.shell), true, 2);
    var st := HoleState(e.cmds, e.cursor, p.holes, true);
    HolesValid(ext, 0, st);
    HolesOriented(ext, 0, st);
    forall k | 0 <= k < |p.holes|
      ensures TwiceSignedArea(OrientHole(p.holes[k])) <= 0
    {
      OrientHoleArea(p.holes[k]);
    }
  }

  // ---------------------------------------------------------------------
  // Features read back

  /** A point kind always yields a POINT feature, and its commands read back
      from the cursor give the points the run keeps. */
  lemma PointFeatureDecodes(cursor: Coord, g: Geometry, id: int)
    requires (g.Point? || g.MultiPoint?) && |PtsKept(PointCoords(g))| <= CMD_HDR_LEN_MAX
    ensures var f := EncodeFeature(cursor, g, id).feature;
      && f == Some(Feature(id, POINT, PtsCmds(cursor, PointCoords(g)).cmds))
      && DecodePoints(cursor, f.value.geometry) == Some(PtsKept(PointCoords(g)))
  {
    PointsRoundTrip(cursor, PointCoords(g));
  }

  /** A line string with at least one LineTo step yields a LINESTRING feature
      whose commands read back as the line's path. */
  lemma LineFeatureDecodes(cursor: Coord, cs: seq<Coord>, id: int)
    requires |cs| >= 1 && 1 <= |LinePath(cs, false)| - 1 <= CMD_HDR_LEN_MAX
    ensures var f := EncodeFeature(cursor, LineString(cs), id).feature;
      && f.Some? && f.value.id == id && f.value.geomType == LINESTRING
      && DecodeLine(cursor, f.value.geometry, false) == Some(LinePath(cs, false))
  {
    var e := LinesCmds(cursor, cs, false, 1);
    assert PartsRun([cs], false, 0, Encoded([], cursor)) == PartsRun([cs], false, 1, Encoded([] + e.cmds, e.cursor));
    assert [] + e.cmds == e.cmds;
    LineRoundTrip(cursor, cs, false, 1);
  }

  /** A line string whose path has no LineTo step yields no feature. */
  lemma ShortLineNoFeature(cursor: Coord, cs: seq<Coord>, id: int)
    requires |cs| >= 1 && |LinePath(cs, false)| < 2
    ensures EncodeFeature(cursor, LineString(cs), id).feature == None
  {
    var e := LinesCmds(cursor, cs, false, 1);
    LinesCmdsEmpty(cursor, cs, false, 1);
    assert PartsRun([cs], false, 0, Encoded([], cursor)) == PartsRun([cs], false, 1, Encoded([] + e.cmds, e.cursor));
  }

  /** As written, a multipoint without coordinates still yields a POINT
      feature: its only command is a MoveTo header of count 0. */
  lemma EmptyMultiPointFeature(cursor: Coord, id: int)
    ensures EncodeFeature(cursor, MultiPoint([]), id).feature == Some(Feature(id, POINT, [CmdHdr(MoveTo, 0)]))
    ensures HdrCount(EncodeFeature(cursor, MultiPoint([]), id).feature.value.geometry[0]) == 0
  {
    PtsEmpty(cursor);
    assert PointCoords(MultiPoint([])) == [];
  }

  /** A polygon without interior rings whose exterior is kept and has at
      least two LineTo steps yields a POLYGON feature whose commands read
      back, ClosePath included, as the oriented exterior ring. */
  lemma PolygonFeatureDecodes(cursor: Coord, shell: seq<Coord>, id: int)
    requires !RoundsToZero(TwiceSignedArea(shell))
    requires |shell| >= 1 && 2 <= |LinePath(OrientShell(shell), true)| - 1 <= CMD_HDR_LEN_MAX
    ensures var f := EncodeFeature(cursor, Polygon(Poly(shell, [])), id).feature;
      && f.Some? && f.value.id == id && f.value.geomType == POLYGON
      && DecodeLine(cursor, f.value.geometry, true) == Some(LinePath(OrientShell(shell), true))
  {
    var p := Poly(shell, []);
    KeptRingLong(shell);
    var e := LinesCmds(cursor, OrientShell(shell), true, 2);
    assert PolyEncode(cursor, p).cmds == e.cmds;
    var r := PolyEncode(cursor, p);
    assert PolysRun(0, PolysState([], cursor, [p]))
      == PolysRun(1, PolysState([] + r.cmds, r.cursor, [p][0 := r.poly]));
    assert [] + r.cmds == e.cmds;
    LineRoundTrip(cursor, OrientShell(shell), true, 2);
  }

  // ---------------------------------------------------------------------
  // Multi-part geometries

  /** Reference definition of a multipolygon's commands, polygon by polygon
      from the front: each polygon is encoded from where the one before it
      left the cursor, and contributes nothing when it is degenerate or
      invalid. */
  function PolysCmds(cursor: Coord, ps: seq<Poly>): seq<nat>
    decreases |ps|
  {
    if ps == [] then []
    else
      var r := PolyEncode(cursor, ps[0]);
      r.cmds + PolysCmds(r.cursor, ps[1..])
  }

  /** A polygon that contributes no commands leaves the loop's commands as
      they are, and the next polygon is encoded from the cursor it leaves. */
  lemma PolysSkipEmpty(i: nat, st: PolysState)
    requires i < |st.polys| && PolyEncode(st.cursor, st.polys[i]).cmds == []
    ensures var r := PolyEncode(st.cursor, st.polys[i]);
      PolysRun(i, st) == PolysRun(i + 1, PolysState(st.cmds, r.cursor, st.polys[i := r.poly]))
  {
    var r := PolyEncode(st.cursor, st.polys[i]);
    assert st.cmds + r.cmds == st.cmds;
  }

  /** The polygon loop from polygon `i` appends the reference commands of
      the polygons from `i` on. */
  lemma {:induction false} PolysRunCmds(i: nat, st: PolysState)
    requires i <= |st.polys|
    ensures PolysRun(i, st).cmds == st.cmds + PolysCmds(st.cursor, st.polys[i..])
    decreases |st.polys| - i
  {
    if i == |st.polys| {
      assert st.polys[i..] == [];
    } else {
      var r := PolyEncode(st.cursor, st.polys[i]);
      var st' := PolysState(st.cmds + r.cmds, r.cursor, st.polys[i := r.poly]);
      assert PolysRun(i, st) == PolysRun(i + 1, st');
      PolysRunCmds(i + 1, st');
      PolysCmdsFront(st.cursor, st.polys[i..], r);
      assert st'.polys[i + 1..] == st.polys[i..][1..];
      AppendAssoc(st.cmds, r.cmds, PolysCmds(r.cursor, st.polys[i + 1..]));
    }
  }

  /** The reference commands of a non-empty list: its first polygon's, then
      the rest's from where the first leaves the cursor. */
  lemma PolysCmdsFront(cursor: Coord, ps: seq<Poly>, r: PolyResult)
    requires ps != [] && r == PolyEncode(cursor, ps[0])
    ensures PolysCmds(cursor, ps) == r.cmds + PolysCmds(r.cursor, ps[1..])
  {
  }

  /** A multipolygon yields a POLYGON feature holding the reference commands
      of its polygons, or none when no polygon contributes any. */
  lemma MultiPolygonFeature(cursor: Coord, ps: seq<Poly>, id: int)
    ensures var cmds := PolysCmds(cursor, ps);
      EncodeFeature(cursor, MultiPolygon(ps), id).feature
        == if cmds == [] then None else Some(Feature(id, POLYGON, cmds))
  {
    PolysRunCmds(0, PolysState([], cursor, ps));
    assert ps[0..] == ps;
    assert [] + PolysCmds(cursor, ps) == PolysCmds(cursor, ps);
  }

  /** Reference definition of a multilinestring's commands, line by line from
      the front, each line encoded from where the one before it left the
      cursor. */
  function PartsCmds(cursor: Coord, ls: seq<seq<Coord>>, close: bool): seq<nat>
    requires NoEmptyLine(ls)
    decreases |ls|
  {
    if ls == [] then []
    else
      var e := LinesCmds(cursor, ls[0], close, 1);
      e.cmds + PartsCmds(e.cursor, ls[1..], close)
  }

  /** The line loop from part `i` appends the reference commands of the
      lines from `i` on. */
  lemma {:induction false} PartsRunCmds(ls: seq<seq<Coord>>, close: bool, i: nat, st: Encoded)
    requires i <= |ls| && NoEmptyLine(ls)
    ensures PartsRun(ls, close, i, st).cmds == st.cmds + PartsCmds(st.cursor, ls[i..], close)
    decreases |ls| - i
  {
    if i == |ls| {
      assert ls[i..] == [];
    } else {
      var e := LinesCmds(st.cursor, ls[i], close, 1);
      PartsRunCmds(ls, close, i + 1, Encoded(st.cmds + e.cmds, e.cursor));
      assert ls[i + 1..] == ls[i..][1..];
      assert st.cmds + e.cmds + PartsCmds(e.cursor, ls[i + 1..], close)
        == st.cmds + (e.cmds + PartsCmds(e.cursor, ls[i + 1..], close));
    }
  }

  /** A multilinestring without empty lines yields a LINESTRING feature
      holding the reference commands of its lines, or none when no line has
      a LineTo step. */
  lemma MultiLineStringFeature(cursor: Coord, ls: seq<seq<Coord>>, id: int)
    requires NoEmptyLine(ls)
    ensures var cmds := PartsCmds(cursor, ls, false);
      EncodeFeature(cursor, MultiLineString(ls), id).feature
        == if cmds == [] then None else Some(Feature(id, LINESTRING, cmds))
  {
    PartsRunCmds(ls, false, 0, Encoded([], cursor));
    assert ls[0..] == ls;
    assert [] + PartsCmds(cursor, ls, false) == PartsCmds(cursor, ls, false);
  }

  /** In a multipolygon, a first polygon that contributes nothing (degenerate,
      or invalidated by an interior ring) leaves the feature to the second
      polygon, encoded from the cursor the first one leaves. */
  lemma MultiPolygonFirstEmpty(cursor: Coord, p: Poly, q: Poly, id: int)
    requires PolyEncode(cursor, p).cmds == []
    ensures var e := PolyEncode(PolyEncode(cursor, p).cursor, q);
      EncodeFeature(cursor, MultiPolygon([p, q]), id).feature
        == if e.cmds == [] then None else Some(Feature(id, POLYGON, e.cmds))
  {
    MultiPolygonFeature(cursor, [p, q], id);
    var r := PolyEncode(cursor, p);
    var e := PolyEncode(r.cursor, q);
    PolysCmdsFront(cursor, [p, q], r);
    assert [p, q][1..] == [q];
    PolysCmdsFront(r.cursor, [q], e);
    assert [q][1..] == [];
    assert PolysCmds(cursor, [p, q]) == [] + (e.cmds + []);
    assert [] + (e.cmds + []) == e.cmds;
  }

  // ---------------------------------------------------------------------
  // Interior rings in the output

  /** Reference definition of what the interior rings of a polygon with
      exterior of doubled area `ext` write, ring by ring from the front: a
      degenerate ring writes nothing and keeps the cursor, a fitting ring
      its closed encoding from the cursor the ring before it leaves; the
      first ring that does not fit ends the list. */
  function HolesCmds(ext: int, cursor: Coord, hs: seq<seq<Coord>>): seq<nat>
    decreases |hs|
  {
    if hs == [] then []
    else
      var o := HoleEncode(ext, cursor, hs[0]);
      if !o.fits then [] else o.cmds + HolesCmds(ext, o.cursor, hs[1..])
  }

  /** What one interior ring writes: nothing, with the cursor kept, when it
      is degenerate or does not fit; otherwise its oriented ring encoded as
      a closed line with at least two LineTo steps. */
  lemma HoleEncodeCmds(ext: int, cursor: Coord, h: seq<Coord>)
    ensures var r := HoleEncode(ext, cursor, h);
      RoundsToZero(TwiceSignedArea(h)) || !r.fits ==> r.cmds == [] && r.cursor == cursor
    ensures var r := HoleEncode(ext, cursor, h);
      !RoundsToZero(TwiceSignedArea(h)) && r.fits ==>
        |OrientHole(h)| >= 3 && Encoded(r.cmds, r.cursor) == LinesCmds(cursor, OrientHole(h), true, 2)
  {
  }

  /** One unfolding of `HolesCmds`. */
  lemma HolesCmdsFront(ext: int, cursor: Coord, hs: seq<seq<Coord>>, o: RingOut)
    requires hs != [] && o == HoleEncode(ext, cursor, hs[0])
    ensures HolesCmds(ext, cursor, hs) == if o.fits then o.cmds + HolesCmds(ext, o.cursor, hs[1..]) else []
  {
  }

  /** A degenerate interior ring is absent from the output: the rings after
      it are written as if it were not there, from the same cursor. */
  lemma HolesCmdsSkipsDegenerate(ext: int, cursor: Coord, h: seq<Coord>, hs: seq<seq<Coord>>)
    requires RoundsToZero(TwiceSignedArea(h))
    ensures HolesCmds(ext, cursor, [h] + hs) == HolesCmds(ext, cursor, hs)
  {
    var o := HoleEncode(ext, cursor, h);
    HoleEncodeCmds(ext, cursor, h);
    HolesCmdsFront(ext, cursor, [h] + hs, o);
    assert ([h] + hs)[1..] == hs;
  }

  /** A fitting, non-degenerate interior ring writes its oriented, closed
      encoding with at least two LineTo steps, and the rings after it start
      from the cursor it leaves. */
  lemma HolesCmdsFitting(ext: int, cursor: Coord, h: seq<Coord>, hs: seq<seq<Coord>>)
    requires !RoundsToZero(TwiceSignedArea(h)) && HoleFits(ext, h)
    ensures |OrientHole(h)| >= 1
    ensures var e := LinesCmds(cursor, OrientHole(h), true, 2);
      HolesCmds(ext, cursor, [h] + hs) == e.cmds + HolesCmds(ext, e.cursor, hs)
  {
    var o := HoleEncode(ext, cursor, h);
    HoleEncodeCmds(ext, cursor, h);
    HolesCmdsFront(ext, cursor, [h] + hs, o);
    assert ([h] + hs)[1..] == hs;
  }

  /** The interior-ring loop from ring `i` of a polygon still valid appends
      the reference commands of the rings from `i` on. */
  lemma {:induction false} HolesRunCmds(ext: int, i: nat, st: HoleState)
    requires i <= |st.holes| && st.valid
    ensures HolesRun(ext, i, st).cmds == st.cmds + HolesCmds(ext, st.cursor, st.holes[i..])
    decreases |st.holes| - i
  {
    if i == |st.holes| {
      assert st.holes[i..] == [];
    } else {
      var o := HoleEncode(ext, st.cursor, st.holes[i]);
      var st' := HoleStep(ext, i, st);
      assert st' == HoleState(st.cmds + o.cmds, o.cursor, st.holes[i := o.ring], o.fits);
      assert HolesRun(ext, i, st) == HolesRun(ext, i + 1, st');
      HolesCmdsFront(ext, st.cursor, st.holes[i..], o);
      HoleEncodeCmds(ext, st.cursor, st.holes[i]);
      if o.fits {
        HolesRunCmds(ext, i + 1, st');
        assert st'.holes[i + 1..] == st.holes[i..][1..];
        AppendAssoc(st.cmds, o.cmds, HolesCmds(ext, o.cursor, st.holes[i + 1..]));
      } else {
        assert HolesRun(ext, i + 1, st') == st';
        assert st.cmds + o.cmds == st.cmds + [];
      }
    }
  }

  /** A polygon whose exterior is kept and whose interior rings all fit
      writes exactly its oriented exterior ring, then the reference commands
      of its interior rings from where the exterior leaves the cursor. */
  lemma PolyWithHoles(cursor: Coord, p: Poly)
    requires !RoundsToZero(TwiceSignedArea(p.shell))
    requires forall k :: 0 <= k < |p.holes| ==> HoleFits(TwiceSignedArea(p.shell), p.holes[k])
    ensures var e := LinesCmds(cursor, OrientShell(p.shell), true, 2);
      PolyEncode(cursor, p).cmds == e.cmds + HolesCmds(TwiceSignedArea(p.shell), e.cursor, p.holes)
  {
    var ext := TwiceSignedArea(p.shell);
    KeptRingLong(p.shell);
    var e := LinesCmds(cursor, OrientShell(p.shell), true, 2);
    var st := HoleState(e.cmds, e.cursor, p.holes, true);
    HolesValid(ext, 0, st);
    HolesRunCmds(ext, 0, st);
    assert p.holes[0..] == p.holes;
  }

  // ---------------------------------------------------------------------
  // Winding of what a decoder reads back

  /** The signed area of a ring of at least one coordinate is the shoelace
      sum around it, whatever its length. */
  lemma CyclicArea(s: seq<Coord>)
    requires |s| >= 1
    ensures TwiceSignedArea(s) == EdgeSum(s) + Cross(s[|s| - 1], s[0])
  {
    if |s| == 2 {
      assert s[..1] == [s[0]];
      assert EdgeSum(s) == Cross(s[0], s[1]);
    }
  }

  /** Dropping a point equal to the one before it keeps the shoelace sum. */
  lemma {:induction false} KeptEdgeSum(cs: seq<Coord>, n: nat)
    requires 1 <= n <= |cs|
    ensures EdgeSum(Kept(cs, n)) == EdgeSum(cs[..n])
    decreases n
  {
    if n == 1 {
      assert Kept(cs, 1) == [cs[0]];
    } else {
      var prev := Kept(cs, n - 1);
      var m, l := cs[n - 2], cs[n - 1];
      KeptEdgeSum(cs, n - 1);
      KeptLast(cs, n - 1);
      assert cs[..n][..n - 1] == cs[..n - 1];
      assert EdgeSum(cs[..n]) == EdgeSum(cs[..n - 1]) + Cross(m, l);
      if l == m {
        assert Kept(cs, n) == prev;
        assert Cross(m, l) == 0;
      } else {
        assert Kept(cs, n) == prev + [l];
        EdgeSumAppend(prev, l);
      }
    }
  }

  /** The final-coordinate test keeps the shoelace sum of the closed ring
      `mid` followed by `last`: a skipped `last` repeats the point before
      it or the first point, and adds nothing. */
  lemma LastStepArea(mid: seq<Coord>, first: Coord, last: Coord, closeEnabled: bool)
    requires |mid| >= 1 && mid[0] == first
    ensures TwiceSignedArea(LastStep(mid, first, last, closeEnabled))
      == EdgeSum(mid) + Cross(mid[|mid| - 1], last) + Cross(last, first)
  {
    var path := LastStep(mid, first, last, closeEnabled);
    var m := mid[|mid| - 1];
    CyclicArea(path);
    if path == mid {
      if last == m {
        assert Cross(m, last) == 0;
      } else {
        assert last == first;
        assert Cross(last, first) == 0;
      }
    } else {
      EdgeSumAppend(mid, last);
    }
  }

  /** The path a line or ring encodes to has the signed area of its
      coordinates: repeated points and the closing point add nothing to the
      shoelace sum. */
  lemma LinePathArea(cs: seq<Coord>, closeEnabled: bool)
    requires |cs| >= 1
    ensures TwiceSignedArea(LinePath(cs, closeEnabled)) == TwiceSignedArea(cs)
  {
    if |cs| >= 2 {
      var n := |cs|;
      var mid := Kept(cs, n - 1);
      KeptEdgeSum(cs, n - 1);
      KeptLast(cs, n - 1);
      LastStepArea(mid, cs[0], cs[n - 1], closeEnabled);
      CyclicArea(cs);
      assert EdgeSum(cs) == EdgeSum(cs[..n - 1]) + Cross(cs[n - 2], cs[n - 1]);
    }
  }

  /** Whenever a ring is written, a decoder reads back a ring of the same
      signed area. */
  lemma ClosedRingDecodedArea(cursor: Coord, cs: seq<Coord>, minLineToLen: int)
    requires |cs| >= 1
    requires minLineToLen <= |LinePath(cs, true)| - 1 <= CMD_HDR_LEN_MAX
    ensures var d := DecodeLine(cursor, LinesCmds(cursor, cs, true, minLineToLen).cmds, true);
      d.Some? && TwiceSignedArea(d.value) == TwiceSignedArea(cs)
  {
    LineRoundTrip(cursor, cs, true, minLineToLen);
    LinePathArea(cs, true);
  }

  /** The exterior ring a decoder reads back from a polygon feature has
      non-negative signed area: the winding holds on the output, not only on
      the ring handed to the encoder. */
  lemma PolygonDecodedWinding(cursor: Coord, shell: seq<Coord>, id: int)
    requires !RoundsToZero(TwiceSignedArea(shell))
    requires |shell| >= 1 && 2 <= |LinePath(OrientShell(shell), true)| - 1 <= CMD_HDR_LEN_MAX
    ensures var f := EncodeFeature(cursor, Polygon(Poly(shell, [])), id).feature;
      && f.Some?
      && DecodeLine(cursor, f.value.geometry, true).Some?
      && TwiceSignedArea(DecodeLine(cursor, f.value.geometry, true).value) == Abs(TwiceSignedArea(shell))
  {
    PolygonFeatureDecodes(cursor, shell, id);
    LinePathArea(OrientShell(shell), true);
    OrientShellArea(shell);
  }
}
