/** Signed ring area and ring reversal, the two geometry services the
    polygon encoder uses (JTS `CGAlgorithms.signedArea` and
    `CoordinateArrays.reverse`). Areas are kept doubled, as integers. */
module RingArea {
  import opened TileGeometry
  import opened Encoding

  /** The coordinates in reverse order. */
  function Reverse(s: seq<Coord>): (r: seq<Coord>)
    ensures |r| == |s|
    ensures forall i :: 0 <= i < |s| ==> r[i] == s[|s| - 1 - i]
  {
    seq(|s|, i requires 0 <= i < |s| => s[|s| - 1 - i])
  }

  /** One shoelace term, with the sign of `CGAlgorithms.signedArea`: a ring
      that turns clockwise in a y-up frame has a positive sum. */
  function Cross(a: Coord, b: Coord): int {
    b.x * a.y - a.x * b.y
  }

  /** The shoelace terms of the consecutive pairs of `s`. */
  function EdgeSum(s: seq<Coord>): int {
    if |s| < 2 then 0 else EdgeSum(s[..|s| - 1]) + Cross(s[|s| - 2], s[|s| - 1])
  }

  /** Twice the signed area of a ring: 0 below three coordinates, otherwise
      the shoelace sum around the closed ring. */
  function TwiceSignedArea(s: seq<Coord>): int {
    if |s| < 3 then 0 else EdgeSum(s) + Cross(s[|s| - 1], s[0])
  }

  /** Java's `(int) Math.round(a)` for `a == twice / 2.0`: `Math.round` takes
      the floor of `a + 0.5`, and the cast keeps the low 32 bits. */
  function RoundedArea(twice: int): int {
    var rounded := (twice + 1) / 2;
    var low := rounded % UINT32_LIMIT;
    if low >= INT32_LIMIT then low - UINT32_LIMIT else low
  }

  /** The encoder's "area must be non-zero" test fails. */
  predicate RoundsToZero(twice: int) {
    RoundedArea(twice) == 0
  }

  function Abs(n: int): nat {
    if n < 0 then -n else n
  }

  /** For every area below 2^31 in magnitude the test drops exactly the areas
      -0.5 and 0: half-way values round up. */
  lemma RoundsToZeroSmall(twice: int)
    requires -UINT32_LIMIT < twice < UINT32_LIMIT
    ensures RoundsToZero(twice) <==> twice == -1 || twice == 0
  {
  }

  /** The rounding is not symmetric: a ring of area 0.5 is kept, its reverse
      (area -0.5) is dropped. */
  lemma RoundingDependsOnOrientation()
    ensures !RoundsToZero(1) && RoundsToZero(-1)
  {
  }

  /** Within the 32-bit range the rounded area is the integer nearest to
      `twice / 2`, half-way values rounded up, as `Math.round` does. */
  lemma RoundedAreaNearest(twice: int)
    requires -UINT32_LIMIT <= twice + 1 < UINT32_LIMIT
    ensures var r := RoundedArea(twice); twice == 2 * r || twice == 2 * r - 1
  {
  }

  /** Beyond that range the cast keeps the rounded value's low 32 bits, read
      as a signed Java int. */
  lemma RoundedAreaWraps(twice: int)
    ensures -INT32_LIMIT <= RoundedArea(twice) < INT32_LIMIT
    ensures (RoundedArea(twice) - (twice + 1) / 2) % UINT32_LIMIT == 0
  {
  }

  lemma EdgeSumAppend(s: seq<Coord>, p: Coord)
    requires |s| >= 1
    ensures EdgeSum(s + [p]) == EdgeSum(s) + Cross(s[|s| - 1], p)
  {
    assert (s + [p])[..|s|] == s;
  }

  /** The shoelace sum can also be split off at the front. */
  lemma {:induction false} EdgeSumPrepend(p: Coord, s: seq<Coord>)
    requires |s| >= 1
    ensures EdgeSum([p] + s) == Cross(p, s[0]) + EdgeSum(s)
    decreases |s|
  {
    if |s| == 1 {
      assert ([p] + s)[..1] == [p];
    } else {
      var t := s[..|s| - 1];
      EdgeSumPrepend(p, t);
      assert ([p] + s)[..|s|] == [p] + t;
      assert s[..|s| - 1] == t;
    }
  }

  /** Reversing a path negates its shoelace sum. */
  lemma {:induction false} EdgeSumReverse(s: seq<Coord>)
    ensures EdgeSum(Reverse(s)) == -EdgeSum(s)
    decreases |s|
  {
    if |s| >= 2 {
      var t := s[..|s| - 1];
      var p := s[|s| - 1];
      EdgeSumReverse(t);
      assert Reverse(s) == [p] + Reverse(t);
      EdgeSumPrepend(p, Reverse(t));
    }
  }

  /** Reversing a ring negates its signed area. */
  lemma ReverseNegatesArea(s: seq<Coord>)
    ensures TwiceSignedArea(Reverse(s)) == -TwiceSignedArea(s)
  {
    EdgeSumReverse(s);
  }
}
