/** A reader for the command buffers the encoders write, as a tile consumer
    interprets them (section 4.3 of the Mapbox Vector Tile Specification
    2.1). It is the partner of the encoders: decoding what they write gives
    back the points they keep. */
module TileDecoder {
  import opened Wrappers
  import opened TileGeometry
  import opened Encoding
  import opened CursorCodec
  import opened CommandEncoder

  /** One MoveTo header whose count matches the parameters after it; the
      positions those parameters reach from `cursor`. */
  function DecodePoints(cursor: Coord, cmds: seq<nat>): (r: Option<seq<Coord>>)
    ensures r.Some? ==> |cmds| >= 1 && |r.value| == HdrCount(cmds[0])
  {
    if |cmds| >= 1 && HdrId(cmds[0]) == MoveTo.Id() && |cmds| == 1 + 2 * HdrCount(cmds[0])
    then Some(DecodeDeltas(cursor, cmds[1..]))
    else None
  }

  /** MoveTo(1) with one pair, then a LineTo header whose count matches the
      pairs after it; the positions visited, starting with the MoveTo
      target. */
  function DecodeOpenLine(cursor: Coord, cmds: seq<nat>): (r: Option<seq<Coord>>)
    ensures r.Some? ==> |cmds| >= 4 && |r.value| == 1 + HdrCount(cmds[3])
  {
    if |cmds| >= 4 && cmds[0] == CmdHdr(MoveTo, 1) && HdrId(cmds[3]) == LineTo.Id()
       && |cmds| == 4 + 2 * HdrCount(cmds[3])
    then
      var first := Coord(cursor.x + UnZigZag(cmds[1]), cursor.y + UnZigZag(cmds[2]));
      Some([first] + DecodeDeltas(first, cmds[4..]))
    else None
  }

  /** A line, or a ring that a final ClosePath closes. */
  function DecodeLine(cursor: Coord, cmds: seq<nat>, closed: bool): (r: Option<seq<Coord>>)
    ensures r.Some? && closed ==> |cmds| >= 5 && cmds[|cmds| - 1] == ClosePathCmdHdr()
  {
    if !closed then DecodeOpenLine(cursor, cmds)
    else if |cmds| >= 1 && cmds[|cmds| - 1] == ClosePathCmdHdr() then DecodeOpenLine(cursor, cmds[..|cmds| - 1])
    else None
  }

  /** `ptsToGeomCmds` round trip: a decoder reads back the points written. */
  lemma PointsRoundTrip(cursor: Coord, cs: seq<Coord>)
    requires |PtsKept(cs)| <= CMD_HDR_LEN_MAX
    ensures DecodePoints(cursor, PtsCmds(cursor, cs).cmds) == Some(PtsKept(cs))
  {
    var kept := PtsKept(cs);
    var cmds := PtsCmds(cursor, cs).cmds;
    CmdHdrDecodes(MoveTo, |kept|);
    assert cmds[1..] == Deltas(cursor, kept);
    DeltasDecode(cursor, kept);
  }

  /** The pair the encoder writes to move the cursor from `a` to `b` reads
      back as `b`. */
  lemma PairDecodes(a: Coord, b: Coord)
    ensures var pair := DeltaPair(a, b);
      Coord(a.x + UnZigZag(pair[0]), a.y + UnZigZag(pair[1])) == b
  {
    ZigZagRoundTrip(b.x - a.x);
    ZigZagRoundTrip(b.y - a.y);
  }

  /** A buffer laid out as MoveTo(1), a pair reaching `first`, LineTo(count)
      and `count` pairs decodes to `first` followed by what those pairs
      reach. */
  lemma OpenLineDecodes(cursor: Coord, cmds: seq<nat>, first: Coord, count: nat)
    requires |cmds| == 4 + 2 * count && cmds[0] == CmdHdr(MoveTo, 1) && cmds[3] == CmdHdr(LineTo, count)
    requires Coord(cursor.x + UnZigZag(cmds[1]), cursor.y + UnZigZag(cmds[2])) == first
    ensures DecodeOpenLine(cursor, cmds) == Some([first] + DecodeDeltas(first, cmds[4..]))
  {
    CmdHdrDecodes(LineTo, count);
  }

  /** The same buffer with a ClosePath appended decodes as a ring. */
  lemma ClosedLineDecodes(cursor: Coord, body: seq<nat>)
    ensures DecodeLine(cursor, body + [ClosePathCmdHdr()], true) == DecodeOpenLine(cursor, body)
  {
    assert (body + [ClosePathCmdHdr()])[..|body|] == body;
  }

  /** `linesToGeomCmds` round trip: whenever the encoder writes a line, a
      decoder reads back its path, first point included, closing point
      excluded. */
  lemma LineRoundTrip(cursor: Coord, cs: seq<Coord>, closeEnabled: bool, minLineToLen: int)
    requires |cs| >= 1
    requires minLineToLen <= |LinePath(cs, closeEnabled)| - 1 <= CMD_HDR_LEN_MAX
    ensures DecodeLine(cursor, LinesCmds(cursor, cs, closeEnabled, minLineToLen).cmds, closeEnabled)
      == Some(LinePath(cs, closeEnabled))
  {
    var path := LinePath(cs, closeEnabled);
    var params := Deltas(cs[0], path[1..]);
    var pair := DeltaPair(cursor, cs[0]);
    var body := [CmdHdr(MoveTo, 1)] + pair + [CmdHdr(LineTo, |path| - 1)] + params;
    assert body[1] == pair[0] && body[2] == pair[1];
    PairDecodes(cursor, cs[0]);
    assert body[3] == CmdHdr(LineTo, |path| - 1);
    assert body[4..] == params;
    OpenLineDecodes(cursor, body, cs[0], |path| - 1);
    ClosedLineDecodes(cursor, body);
    DeltasDecode(cs[0], path[1..]);
    assert [cs[0]] + path[1..] == path;
  }
}
