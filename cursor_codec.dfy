/** The delta cursor: every encoded point is written as the zig-zag of its
    offset from the previous point, and the cursor then moves to it. */
module CursorCodec {
  import opened TileGeometry
  import opened Encoding

  /** The encoder's `Vec2d` cursor, a position updated in place. */
  class Cursor {
    var x: int
    var y: int

    /** `new Vec2d()`: the origin. */
    constructor ()
      ensures Pos() == Coord(0, 0)
    {
      x, y := 0, 0;
    }

    function Pos(): Coord
      reads this
    {
      Coord(x, y)
    }

    /** `Vec2d.set`. */
    method Set(p: Coord)
      modifies this
      ensures Pos() == p
    {
      x, y := p.x, p.y;
    }
  }

  /** A `List<Integer>` of command integers that the encoder appends to and
      back-patches. */
  class CmdList {
    var items: seq<nat>

    constructor ()
      ensures items == []
    {
      items := [];
    }

    method Add(v: nat)
      modifies this
      ensures items == old(items) + [v]
    {
      items := items + [v];
    }

    method Set(i: nat, v: nat)
      requires i < |items|
      modifies this
      ensures items == old(items)[i := v]
    {
      items := items[i := v];
    }
  }

  /** The two parameters that move the cursor from `a` to `b`. */
  function DeltaPair(a: Coord, b: Coord): seq<nat> {
    [ZigZag(b.x - a.x), ZigZag(b.y - a.y)]
  }

  function LastOr(d: Coord, ps: seq<Coord>): Coord {
    if ps == [] then d else ps[|ps| - 1]
  }

  /** The parameters that visit `ps` in order, starting from `from`. */
  function Deltas(from: Coord, ps: seq<Coord>): (ds: seq<nat>)
    ensures |ds| == 2 * |ps|
  {
    if ps == [] then []
    else
      var init := ps[..|ps| - 1];
      Deltas(from, init) + DeltaPair(LastOr(from, init), ps[|ps| - 1])
  }

  /** Reading parameters back into absolute positions, as a tile decoder does. */
  function DecodeDeltas(from: Coord, ds: seq<nat>): (ps: seq<Coord>)
    ensures |ps| == |ds| / 2
    decreases |ds|
  {
    if |ds| < 2 then []
    else
      var p := Coord(from.x + UnZigZag(ds[0]), from.y + UnZigZag(ds[1]));
      [p] + DecodeDeltas(p, ds[2..])
  }

  /** `moveCursor`: appends the zig-zag of the x delta, then of the y delta,
      and moves the cursor to the target. */
  method MoveCursor(cursor: Cursor, geomCmds: CmdList, mvtPos: Coord)
    requires InRange(cursor.Pos()) && InRange(mvtPos)
    modifies cursor, geomCmds
    ensures geomCmds.items == old(geomCmds.items) + DeltaPair(old(cursor.Pos()), mvtPos)
    ensures cursor.Pos() == mvtPos
  {
    geomCmds.Add(ZigZag(mvtPos.x - cursor.x));
    geomCmds.Add(ZigZag(mvtPos.y - cursor.y));
    cursor.Set(mvtPos);
  }

  /** `equalAsInts`: with integer coordinates, equality of the truncated
      values is equality of the positions. */
  function EqualAsInts(a: Coord, b: Coord): (r: bool)
    ensures r <==> a == b
  {
    b.x == a.x && b.y == a.y
  }

  /** The deltas can be split off at the front as well. */
  lemma {:induction false} DeltasPrepend(from: Coord, p: Coord, rest: seq<Coord>)
    ensures Deltas(from, [p] + rest) == DeltaPair(from, p) + Deltas(p, rest)
    decreases |rest|
  {
    if rest == [] {
      assert ([p] + rest)[..0] == [];
    } else {
      var init := rest[..|rest| - 1];
      DeltasPrepend(from, p, init);
      assert ([p] + rest)[..|rest|] == [p] + init;
    }
  }

  /** Decoding the parameters gives back exactly the visited points. */
  lemma {:induction false} DeltasDecode(from: Coord, ps: seq<Coord>)
    ensures DecodeDeltas(from, Deltas(from, ps)) == ps
    decreases |ps|
  {
    if ps != [] {
      DeltasPrepend(from, ps[0], ps[1..]);
      assert [ps[0]] + ps[1..] == ps;
      var ds := Deltas(from, ps);
      ZigZagRoundTrip(ps[0].x - from.x);
      ZigZagRoundTrip(ps[0].y - from.y);
      assert ds[2..] == Deltas(ps[0], ps[1..]);
      DeltasDecode(ps[0], ps[1..]);
    }
  }

  /** Within range, every parameter fits a non-negative Java `int`. */
  lemma {:induction false} DeltasFit(from: Coord, ps: seq<Coord>)
    requires InRange(from) && AllInRange(ps)
    ensures forall i :: 0 <= i < |Deltas(from, ps)| ==> Deltas(from, ps)[i] < INT32_LIMIT
    decreases |ps|
  {
    if ps != [] {
      var init := ps[..|ps| - 1];
      DeltasFit(from, init);
      var a, b := LastOr(from, init), ps[|ps| - 1];
      ZigZagFits(b.x - a.x);
      ZigZagFits(b.y - a.y);
    }
  }

  lemma AppendAssoc(a: seq<nat>, b: seq<nat>, c: seq<nat>)
    ensures (a + b) + c == a + (b + c)
  {
  }

  /** Appending one point appends its pair. */
  lemma DeltasAppend(from: Coord, ps: seq<Coord>, p: Coord)
    ensures Deltas(from, ps + [p]) == Deltas(from, ps) + DeltaPair(LastOr(from, ps), p)
  {
    assert (ps + [p])[..|ps|] == ps;
  }
}
