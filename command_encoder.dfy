/** `ptsToGeomCmds` and `linesToGeomCmds`: one point run, or one line or
    ring, as a command buffer. Both move the shared cursor. */
module CommandEncoder {
  import opened TileGeometry
  import opened Encoding
  import opened CursorCodec

  /** The points of `cs[..n]` that the encoder writes: the first one, then
      each one that differs from the point written just before it (the
      cursor). */
  function Kept(cs: seq<Coord>, n: nat): (r: seq<Coord>)
    requires n <= |cs|
    ensures |r| <= n
    ensures n > 0 ==> |r| >= 1 && r[0] == cs[0]
  {
    if n == 0 then []
    else
      var prev := Kept(cs, n - 1);
      if prev != [] && cs[n - 1] == prev[|prev| - 1] then prev else prev + [cs[n - 1]]
  }

  /** No point repeats the one just before it. */
  predicate NoAdjacentDup(s: seq<Coord>) {
    forall i :: 0 < i < |s| ==> s[i] != s[i - 1]
  }

  /** Commands produced and where the cursor is afterwards. */
  datatype Encoded = Encoded(cmds: seq<nat>, cursor: Coord)

  /** Points of a point run that `ptsToGeomCmds` writes: the first one, then
      each one that differs from the last one written. */
  function PtsKept(cs: seq<Coord>): seq<Coord> {
    Kept(cs, |cs|)
  }

  /** What `ptsToGeomCmds` returns: one MoveTo header with its count, then the
      parameters; nothing when the count does not fit a header. */
  function PtsCmds(cursor: Coord, cs: seq<Coord>): Encoded {
    var kept := PtsKept(cs);
    var cmds := if |kept| <= CMD_HDR_LEN_MAX then [CmdHdr(MoveTo, |kept|)] + Deltas(cursor, kept) else [];
    Encoded(cmds, LastOr(cursor, kept))
  }

  /** How many leading coordinates the line loop reads: all but the last,
      and at least the first. */
  function LoopEnd(cs: seq<Coord>): nat
    requires |cs| >= 1
  {
    if |cs| >= 2 then |cs| - 1 else 1
  }

  /** The points a line visits: the first coordinate, the interior ones that
      differ from their predecessor, then the last one unless it repeats the
      cursor or, when the path closes, the first coordinate. */
  function LinePath(cs: seq<Coord>, closeEnabled: bool): (path: seq<Coord>)
    requires |cs| >= 1
    ensures 1 <= |path| <= |cs| && path[0] == cs[0]
  {
    LastStep(Kept(cs, LoopEnd(cs)), cs[0], cs[|cs| - 1], closeEnabled)
  }

  /** The final-coordinate test: `last` extends the path `mid` unless it
      repeats the cursor or, when the path closes, the first coordinate. */
  function LastStep(mid: seq<Coord>, first: Coord, last: Coord, closeEnabled: bool): (path: seq<Coord>)
    requires |mid| >= 1
    ensures |mid| <= |path| <= |mid| + 1 && path[0] == mid[0]
  {
    if last != mid[|mid| - 1] && (!closeEnabled || first != last) then mid + [last] else mid
  }

  /** What `linesToGeomCmds` returns: MoveTo(1), the first point, a LineTo
      header with the run length, the run, and a ClosePath when asked; nothing
      when the run length is outside `[minLineToLen, CMD_HDR_LEN_MAX]`. */
  function LinesCmds(cursor: Coord, cs: seq<Coord>, closeEnabled: bool, minLineToLen: int): Encoded
    requires |cs| >= 1
  {
    var path := LinePath(cs, closeEnabled);
    var n := |path| - 1;
    var head := [CmdHdr(MoveTo, 1)] + DeltaPair(cursor, cs[0]);
    var body := head + [CmdHdr(LineTo, n)] + Deltas(cs[0], path[1..]);
    var cmds :=
      if minLineToLen <= n <= CMD_HDR_LEN_MAX then (if closeEnabled then body + [ClosePathCmdHdr()] else body)
      else [];
    Encoded(cmds, path[|path| - 1])
  }

  /** `geomCmdBuffLenPts`: one header and two parameters per coordinate. */
  function GeomCmdBuffLenPts(coordCount: nat): nat {
    1 + coordCount * 2
  }

  /** `geomCmdBuffLenLines`: two headers, an optional ClosePath and two
      parameters per coordinate. */
  function GeomCmdBuffLenLines(coordCount: nat, closeEnabled: bool): nat {
    2 + (if closeEnabled then 1 else 0) + coordCount * 2
  }

  /** Back-patching a header placeholder in the middle of the buffer. */
  lemma PatchAt(head: seq<nat>, x: nat, v: nat, tail: seq<nat>)
    ensures (head + [x] + tail)[|head| := v] == head + [v] + tail
  {
  }

  /** `LinesCmds` in terms of the state the line loop leaves when the
      buffer starts with the MoveTo command and a LineTo placeholder at
      index 3. */
  lemma LinesCmdsOf(start: Coord, cs: seq<Coord>, close: bool, minLen: int, st: LinesState)
    requires |cs| >= 1
    requires st == LinesAfter([CmdHdr(MoveTo, 1)] + DeltaPair(start, cs[0]) + [0], LinePath(cs, close))
    ensures |st.items| > 3
    ensures var hdr := CmdHdr(LineTo, st.count);
      LinesCmds(start, cs, close, minLen)
        == Encoded(if minLen <= st.count <= CMD_HDR_LEN_MAX
                   then (if close then st.items[3 := hdr] + [ClosePathCmdHdr()] else st.items[3 := hdr])
                   else [],
                   st.pos)
  {
    var path := LinePath(cs, close);
    var head := [CmdHdr(MoveTo, 1)] + DeltaPair(start, cs[0]);
    PatchAt(head, 0, CmdHdr(LineTo, |path| - 1), Deltas(cs[0], path[1..]));
  }

  /** The final-coordinate test on the state the line loop leaves after
      the path `mid`. */
  lemma LastStepAfter(prefix: seq<nat>, mid: seq<Coord>, first: Coord, last: Coord, close: bool, st: LinesState)
    requires |mid| >= 1 && st == LinesAfter(prefix, mid)
    ensures LinesAfter(prefix, LastStep(mid, first, last, close))
      == if st.pos != last && (!close || first != last)
         then LinesState(st.count + 1, st.items + DeltaPair(st.pos, last), last)
         else st
  {
    if st.pos != last && (!close || first != last) {
      LinesAfterSnoc(prefix, mid, last);
    }
  }

  /** Extending a path by one point extends its parameters by one pair. */
  lemma PathDeltasSnoc(path: seq<Coord>, p: Coord)
    requires |path| >= 1
    ensures (path + [p])[1..] == path[1..] + [p]
    ensures Deltas(path[0], (path + [p])[1..]) == Deltas(path[0], path[1..]) + DeltaPair(path[|path| - 1], p)
  {
    assert (path + [p])[1..] == path[1..] + [p];
    DeltasAppend(path[0], path[1..], p);
  }

  /** State of the point loop: the MoveTo count, the buffer and the cursor. */
  datatype PtsState = PtsState(count: nat, items: seq<nat>, pos: Coord)

  /** The point loop run from index `i` to the end. */
  function PtsRun(cs: seq<Coord>, i: nat, st: PtsState): PtsState
    requires i <= |cs|
    decreases |cs| - i
  {
    if i == |cs| then st
    else
      var p := cs[i];
      if i == 0 || st.pos != p then PtsRun(cs, i + 1, PtsState(st.count + 1, st.items + DeltaPair(st.pos, p), p))
      else PtsRun(cs, i + 1, st)
  }

  /** The state of the point loop once it has written `kept`. */
  function PtsAfter(start: Coord, kept: seq<Coord>): PtsState {
    PtsState(|kept|, [0] + Deltas(start, kept), LastOr(start, kept))
  }

  /** One turn of the point loop moves from the state after `cs[..i]` to the
      state after `cs[..i + 1]`. */
  lemma PtsRunStep(cs: seq<Coord>, i: nat, start: Coord)
    requires i < |cs|
    ensures PtsRun(cs, i, PtsAfter(start, Kept(cs, i))) == PtsRun(cs, i + 1, PtsAfter(start, Kept(cs, i + 1)))
  {
    var k := Kept(cs, i);
    var p := cs[i];
    var st := PtsAfter(start, k);
    if i == 0 || st.pos != p {
      var st' := PtsState(st.count + 1, st.items + DeltaPair(st.pos, p), p);
      assert PtsRun(cs, i, st) == PtsRun(cs, i + 1, st');
      KeptGrows(cs, i, start);
      PtsAfterSnoc(start, k, p);
    } else {
      KeptStays(cs, i);
    }
  }

  /** A coordinate other than the cursor is written. */
  lemma KeptGrows(cs: seq<Coord>, i: nat, start: Coord)
    requires i < |cs| && (i == 0 || LastOr(start, Kept(cs, i)) != cs[i])
    ensures Kept(cs, i + 1) == Kept(cs, i) + [cs[i]]
  {
  }

  /** A coordinate equal to the cursor is skipped. */
  lemma KeptStays(cs: seq<Coord>, i: nat)
    requires 0 < i < |cs| && Kept(cs, i)[|Kept(cs, i)| - 1] == cs[i]
    ensures Kept(cs, i + 1) == Kept(cs, i)
  {
  }

  /** Writing one more point appends its delta pair. */
  lemma PtsAfterSnoc(start: Coord, k: seq<Coord>, p: Coord)
    ensures PtsAfter(start, k + [p])
      == PtsState(|k| + 1, PtsAfter(start, k).items + DeltaPair(LastOr(start, k), p), p)
  {
    DeltasAppend(start, k, p);
    AppendAssoc([0], Deltas(start, k), DeltaPair(LastOr(start, k), p));
  }

  /** Running the loop from `i` on the state it has after `cs[..i]`. */
  lemma {:induction false} PtsRunFrom(cs: seq<Coord>, i: nat, start: Coord)
    requires i <= |cs|
    ensures PtsRun(cs, i, PtsAfter(start, Kept(cs, i))) == PtsAfter(start, Kept(cs, |cs|))
    decreases |cs| - i
  {
    if i < |cs| {
      PtsRunStep(cs, i, start);
      PtsRunFrom(cs, i + 1, start);
    }
  }

  /** State of the line loop: the LineTo count, the buffer and the cursor. */
  datatype LinesState = LinesState(count: nat, items: seq<nat>, pos: Coord)

  /** The line loop run from index `i` up to the last coordinate. */
  function LinesRun(cs: seq<Coord>, i: nat, st: LinesState): LinesState
    requires |cs| >= 1 && 1 <= i <= LoopEnd(cs)
    decreases LoopEnd(cs) - i
  {
    if i == LoopEnd(cs) then st
    else
      var p := cs[i];
      if st.pos != p then LinesRun(cs, i + 1, LinesState(st.count + 1, st.items + DeltaPair(st.pos, p), p))
      else LinesRun(cs, i + 1, st)
  }

  /** The state of the line loop after the path `path`. */
  function LinesAfter(prefix: seq<nat>, path: seq<Coord>): LinesState
    requires |path| >= 1
  {
    LinesState(|path| - 1, prefix + Deltas(path[0], path[1..]), path[|path| - 1])
  }

  /** One turn of the line loop. */
  lemma LinesRunStep(cs: seq<Coord>, i: nat, prefix: seq<nat>)
    requires |cs| >= 1 && 1 <= i < LoopEnd(cs)
    ensures LinesRun(cs, i, LinesAfter(prefix, Kept(cs, i))) == LinesRun(cs, i + 1, LinesAfter(prefix, Kept(cs, i + 1)))
  {
    var path := Kept(cs, i);
    var p := cs[i];
    var st := LinesAfter(prefix, path);
    if st.pos != p {
      var st' := LinesState(st.count + 1, st.items + DeltaPair(st.pos, p), p);
      assert LinesRun(cs, i, st) == LinesRun(cs, i + 1, st');
      KeptGrows(cs, i, p);
      LinesAfterSnoc(prefix, path, p);
    } else {
      KeptStays(cs, i);
    }
  }

  /** Extending the path by one point appends its delta pair. */
  lemma LinesAfterSnoc(prefix: seq<nat>, path: seq<Coord>, p: Coord)
    requires |path| >= 1
    ensures LinesAfter(prefix, path + [p])
      == LinesState(|path|, LinesAfter(prefix, path).items + DeltaPair(path[|path| - 1], p), p)
  {
    PathDeltasSnoc(path, p);
    AppendAssoc(prefix, Deltas(path[0], path[1..]), DeltaPair(path[|path| - 1], p));
  }

  /** Running the line loop from `i` on the state it has after `cs[..i]`. */
  lemma {:induction false} LinesRunFrom(cs: seq<Coord>, i: nat, prefix: seq<nat>)
    requires |cs| >= 1 && 1 <= i <= LoopEnd(cs)
    ensures LinesRun(cs, i, LinesAfter(prefix, Kept(cs, i))) == LinesAfter(prefix, Kept(cs, LoopEnd(cs)))
    decreases LoopEnd(cs) - i
  {
    if i < LoopEnd(cs) {
      LinesRunStep(cs, i, prefix);
      LinesRunFrom(cs, i + 1, prefix);
    }
  }

  /** The whole point loop, from its initial state. */
  lemma PtsRunAll(cs: seq<Coord>, start: Coord)
    ensures PtsRun(cs, 0, PtsState(0, [0], start)) == PtsAfter(start, PtsKept(cs))
  {
    assert PtsAfter(start, Kept(cs, 0)) == PtsState(0, [0], start);
    PtsRunFrom(cs, 0, start);
  }

  /** `PtsCmds` in terms of the state the point loop ends in. */
  lemma PtsCmdsOf(start: Coord, cs: seq<Coord>, st: PtsState)
    requires st == PtsAfter(start, PtsKept(cs))
    ensures |st.items| >= 1
    ensures PtsCmds(start, cs)
      == Encoded(if st.count <= CMD_HDR_LEN_MAX then st.items[0 := CmdHdr(MoveTo, st.count)] else [], st.pos)
  {
    var kept := PtsKept(cs);
    assert ([0] + Deltas(start, kept))[0 := CmdHdr(MoveTo, |kept|)] == [CmdHdr(MoveTo, |kept|)] + Deltas(start, kept);
  }

  /** The whole line loop, from the state after the first point. */
  lemma LinesRunAll(cs: seq<Coord>, prefix: seq<nat>)
    requires |cs| >= 1
    ensures LinesRun(cs, 1, LinesState(0, prefix, cs[0])) == LinesAfter(prefix, Kept(cs, LoopEnd(cs)))
  {
    assert Kept(cs, 1) == [cs[0]];
    assert LinesAfter(prefix, Kept(cs, 1)) == LinesState(0, prefix, cs[0]);
    LinesRunFrom(cs, 1, prefix);
  }

  // ---------------------------------------------------------------------
  // The encoders

  /** `ptsToGeomCmds` on the coordinates of a Point or MultiPoint. */
  method PtsToGeomCmds(coords: seq<Coord>, cursor: Cursor) returns (cmds: seq<nat>)
    requires AllInRange(coords) && InRange(cursor.Pos())
    modifies cursor
    ensures PtsCmds(old(cursor.Pos()), coords) == Encoded(cmds, cursor.Pos())
    ensures InRange(cursor.Pos())
  {
    ghost var start := cursor.Pos();
    PtsRunAll(coords, start);
    ghost var final := PtsAfter(start, PtsKept(coords));
    var geomCmds := new CmdList();
    var moveCmdLen := 0;
    geomCmds.Add(0);
    assert geomCmds.items == [0] && cursor.Pos() == start;
    var i := 0;
    while i < |coords|
      invariant 0 <= i <= |coords|
      invariant PtsRun(coords, i, PtsState(moveCmdLen, geomCmds.items, cursor.Pos())) == final
      invariant InRange(cursor.Pos())
    {
      var mvtPos := coords[i];
      if i == 0 || !EqualAsInts(cursor.Pos(), mvtPos) {
        moveCmdLen := moveCmdLen + 1;
        MoveCursor(cursor, geomCmds, mvtPos);
      }
      i := i + 1;
    }
    PtsCmdsOf(start, coords, PtsState(moveCmdLen, geomCmds.items, cursor.Pos()));
    if moveCmdLen <= CMD_HDR_LEN_MAX {
      geomCmds.Set(0, CmdHdr(MoveTo, moveCmdLen));
      cmds := geomCmds.items;
    } else {
      cmds := [];
    }
  }

  /** The loop and the final-coordinate test of `linesToGeomCmds`: appends
      the LineTo parameters of the path after the first point, which the
      cursor is on, and returns their count. */
  method LineToRun(coords: seq<Coord>, closeEnabled: bool, cursor: Cursor, geomCmds: CmdList)
    returns (lineToLength: nat)
    requires |coords| >= 1 && AllInRange(coords) && cursor.Pos() == coords[0]
    modifies cursor, geomCmds
    ensures LinesAfter(old(geomCmds.items), LinePath(coords, closeEnabled))
      == LinesState(lineToLength, geomCmds.items, cursor.Pos())
    ensures InRange(cursor.Pos())
  {
    ghost var prefix := geomCmds.items;
    LinesRunAll(coords, prefix);
    ghost var final := LinesAfter(prefix, Kept(coords, LoopEnd(coords)));
    lineToLength := 0;
    var i := 1;
    while i < |coords| - 1
      invariant 1 <= i <= LoopEnd(coords)
      invariant LinesRun(coords, i, LinesState(lineToLength, geomCmds.items, cursor.Pos())) == final
      invariant InRange(cursor.Pos())
    {
      var mvtPos := coords[i];
      if !EqualAsInts(cursor.Pos(), mvtPos) {
        lineToLength := lineToLength + 1;
        MoveCursor(cursor, geomCmds, mvtPos);
      }
      i := i + 1;
    }
    var last := coords[|coords| - 1];
    LastStepAfter(prefix, Kept(coords, LoopEnd(coords)), coords[0], last, closeEnabled,
                  LinesState(lineToLength, geomCmds.items, cursor.Pos()));
    if !EqualAsInts(cursor.Pos(), last) && (!closeEnabled || coords[0] != last) {
      lineToLength := lineToLength + 1;
      MoveCursor(cursor, geomCmds, last);
    }
  }

  /** The end of `linesToGeomCmds`: when the LineTo count is in range,
      patches the header placeholder at `hdrIndex`, appends a ClosePath when
      asked and returns the buffer; otherwise returns an empty one. */
  method FinishLine(geomCmds: CmdList, hdrIndex: nat, lineToLength: nat, closeEnabled: bool, minLineToLen: int)
    returns (cmds: seq<nat>)
    requires hdrIndex < |geomCmds.items|
    modifies geomCmds
    ensures var hdr := CmdHdr(LineTo, lineToLength);
      cmds == if minLineToLen <= lineToLength <= CMD_HDR_LEN_MAX
              then (if closeEnabled then old(geomCmds.items)[hdrIndex := hdr] + [ClosePathCmdHdr()]
                    else old(geomCmds.items)[hdrIndex := hdr])
              else []
  {
    if lineToLength >= minLineToLen && lineToLength <= CMD_HDR_LEN_MAX {
      geomCmds.Set(hdrIndex, CmdHdr(LineTo, lineToLength));
      if closeEnabled {
        geomCmds.Add(ClosePathCmdHdr());
      }
      cmds := geomCmds.items;
    } else {
      cmds := [];
    }
  }

  /** `linesToGeomCmds` on the coordinates of one LineString or ring. */
  method LinesToGeomCmds(coords: seq<Coord>, closeEnabled: bool, cursor: Cursor, minLineToLen: int)
    returns (cmds: seq<nat>)
    requires |coords| >= 1 && AllInRange(coords) && InRange(cursor.Pos())
    modifies cursor
    ensures LinesCmds(old(cursor.Pos()), coords, closeEnabled, minLineToLen) == Encoded(cmds, cursor.Pos())
    ensures InRange(cursor.Pos())
  {
    ghost var start := cursor.Pos();
    var geomCmds := new CmdList();
    var first := coords[0];
    geomCmds.Add(CmdHdr(MoveTo, 1));
    MoveCursor(cursor, geomCmds, first);
    var lineToCmdHdrIndex := |geomCmds.items|;
    geomCmds.Add(0);
    var lineToLength := LineToRun(coords, closeEnabled, cursor, geomCmds);
    LinesCmdsOf(start, coords, closeEnabled, minLineToLen, LinesState(lineToLength, geomCmds.items, cursor.Pos()));
    cmds := FinishLine(geomCmds, lineToCmdHdrIndex, lineToLength, closeEnabled, minLineToLen);
  }

  // ---------------------------------------------------------------------
  // What the encoders keep

  /** The last point written is the last coordinate read. */
  lemma KeptLast(cs: seq<Coord>, n: nat)
    requires 0 < n <= |cs|
    ensures Kept(cs, n)[|Kept(cs, n)| - 1] == cs[n - 1]
  {
  }

  /** No point written repeats the one written just before it. */
  lemma {:induction false} KeptNoAdjacentDup(cs: seq<Coord>, n: nat)
    requires n <= |cs|
    ensures NoAdjacentDup(Kept(cs, n))
    decreases n
  {
    if n > 0 {
      KeptNoAdjacentDup(cs, n - 1);
    }
  }

  /** Dropping repeats loses no point: exactly the coordinates read are
      written. */
  lemma {:induction false} KeptSameSet(cs: seq<Coord>, n: nat)
    requires n <= |cs|
    ensures forall q :: q in Kept(cs, n) <==> q in cs[..n]
    decreases n
  {
    if n > 0 {
      KeptSameSet(cs, n - 1);
      assert cs[..n] == cs[..n - 1] + [cs[n - 1]];
    }
  }

  /** A point run leaves the cursor on its last coordinate, whether or not
      that coordinate was written, and where it was when the run is empty. */
  lemma PtsCursorLast(cursor: Coord, cs: seq<Coord>)
    ensures PtsCmds(cursor, cs).cursor == LastOr(cursor, cs)
  {
    if cs != [] {
      KeptLast(cs, |cs|);
    }
  }

  /** An empty point run still yields a MoveTo header, with count 0. */
  lemma PtsEmpty(cursor: Coord)
    ensures PtsCmds(cursor, []) == Encoded([CmdHdr(MoveTo, 0)], cursor)
    ensures HdrId(PtsCmds(cursor, []).cmds[0]) == MoveTo.Id() && HdrCount(PtsCmds(cursor, []).cmds[0]) == 0
  {
    CmdHdrDecodes(MoveTo, 0);
  }

  /** What `ptsToGeomCmds` returns once its empty-input guard returns the
      empty list: nothing for no coordinate, as before otherwise. */
  function PtsCmdsGuarded(cursor: Coord, cs: seq<Coord>): Encoded {
    if cs == [] then Encoded([], cursor) else PtsCmds(cursor, cs)
  }

  /** With the guard, a non-empty result is one MoveTo for at least one
      point followed by two parameters per point: no MoveTo of count 0. */
  lemma PtsGuardedHeader(cursor: Coord, cs: seq<Coord>)
    ensures var r := PtsCmdsGuarded(cursor, cs).cmds;
      r != [] ==> HdrId(r[0]) == MoveTo.Id() && 1 <= HdrCount(r[0]) && |r| == 1 + 2 * HdrCount(r[0])
    ensures cs == [] ==> PtsCmdsGuarded(cursor, cs).cmds == []
    ensures cs != [] ==> PtsCmdsGuarded(cursor, cs) == PtsCmds(cursor, cs)
  {
    if cs != [] {
      var kept := PtsKept(cs);
      CmdHdrDecodes(MoveTo, |kept|);
    }
  }

  /** The buffer never outgrows the capacity `geomCmdBuffLenPts` reserves. */
  lemma PtsCmdsLen(cursor: Coord, cs: seq<Coord>)
    ensures |PtsCmds(cursor, cs).cmds| <= GeomCmdBuffLenPts(|cs|)
  {
  }

  /** The capacity `geomCmdBuffLenPts` reserves is exact for the points
      written: one header and two parameters each. */
  lemma PtsBuffLenExact(cursor: Coord, cs: seq<Coord>)
    requires |PtsKept(cs)| <= CMD_HDR_LEN_MAX
    ensures |PtsCmds(cursor, cs).cmds| == GeomCmdBuffLenPts(|PtsKept(cs)|)
  {
  }

  /** No point of a line repeats the one before it. */
  lemma LinePathNoAdjacentDup(cs: seq<Coord>, closeEnabled: bool)
    requires |cs| >= 1
    ensures NoAdjacentDup(LinePath(cs, closeEnabled))
  {
    KeptNoAdjacentDup(cs, LoopEnd(cs));
  }

  /** A line visits exactly the points of its coordinates: dropping repeats
      and the closing coordinate of a ring loses none. */
  lemma LinePathSameSet(cs: seq<Coord>, closeEnabled: bool)
    requires |cs| >= 1
    ensures forall q :: q in LinePath(cs, closeEnabled) <==> q in cs
  {
    var mid := Kept(cs, LoopEnd(cs));
    KeptSameSet(cs, LoopEnd(cs));
    KeptLast(cs, LoopEnd(cs));
    assert cs == cs[..LoopEnd(cs)] + cs[LoopEnd(cs)..];
    assert cs[0] in mid;
  }

  /** When the path is closed by a ClosePath, a final coordinate equal to the
      first is not written. */
  lemma LineCloseDropsLast(cs: seq<Coord>)
    requires |cs| >= 1 && cs[|cs| - 1] == cs[0]
    ensures LinePath(cs, true) == Kept(cs, LoopEnd(cs))
  {
  }

  /** The buffer is empty exactly when the LineTo count is outside
      `[minLineToLen, CMD_HDR_LEN_MAX]`. */
  lemma LinesCmdsEmpty(cursor: Coord, cs: seq<Coord>, closeEnabled: bool, minLineToLen: int)
    requires |cs| >= 1
    ensures var n := |LinePath(cs, closeEnabled)| - 1;
      LinesCmds(cursor, cs, closeEnabled, minLineToLen).cmds == [] <==> !(minLineToLen <= n <= CMD_HDR_LEN_MAX)
  {
  }

  /** The buffer never outgrows the capacity `geomCmdBuffLenLines`
      reserves. */
  lemma LinesCmdsLen(cursor: Coord, cs: seq<Coord>, closeEnabled: bool, minLineToLen: int)
    requires |cs| >= 1
    ensures |LinesCmds(cursor, cs, closeEnabled, minLineToLen).cmds| <= GeomCmdBuffLenLines(|cs|, closeEnabled)
  {
  }

  /** The capacity `geomCmdBuffLenLines` reserves is exact for a line that
      is written: two headers, the optional ClosePath and two parameters for
      each point of its path. */
  lemma LinesBuffLenExact(cursor: Coord, cs: seq<Coord>, closeEnabled: bool, minLineToLen: int)
    requires |cs| >= 1
    requires minLineToLen <= |LinePath(cs, closeEnabled)| - 1 <= CMD_HDR_LEN_MAX
    ensures |LinesCmds(cursor, cs, closeEnabled, minLineToLen).cmds|
      == GeomCmdBuffLenLines(|LinePath(cs, closeEnabled)|, closeEnabled)
  {
    var path := LinePath(cs, closeEnabled);
  }
}
