/** The integer part of `HexPainter` (hexpainter.h): the three numbers that
    place the hexagon grid on the canvas, and the distance between two
    hexagons counted in steps across a side.

    The grid is pointy-topped and laid out by rows: hexagon (x, y) has its
    centre `sqrt(3) * R * (x + (y % 2) / 2)` pixels right of P0 and
    `3 * R * y / 2` pixels below Q0, with C++'s truncating `%`, so odd rows
    above row 0 are pushed half a hexagon to the left and odd rows below it
    half a hexagon to the right.  The pixel geometry itself is floating
    point and is not part of this model; `Column` keeps its integer shape. */
module HexPainting {
  import opened Base

  /** `HexPainter<C>`: the side length R of a hexagon and the pixel position
      (P0, Q0) of the centre of hexagon (0, 0). */
  class HexPainter {
    var r: int
    var p0: int
    var q0: int

    /** `HexPainter(r, p0, q0)` */
    constructor (r: int, p0: int, q0: int)
      ensures this.r == r && this.p0 == p0 && this.q0 == q0
    {
      this.r := r;
      this.p0 := p0;
      this.q0 := q0;
    }

    /** `resetOrigin`: moves the grid; the hexagon size stays. */
    method ResetOrigin(p0: int, q0: int)
      modifies this
      ensures this.p0 == p0 && this.q0 == q0
      ensures r == old(r)
    {
      this.p0 := p0;
      this.q0 := q0;
    }

    /** `resetRadius`: resizes the hexagons; the origin stays. */
    method ResetRadius(r: int)
      modifies this
      ensures this.r == r
      ensures p0 == old(p0) && q0 == old(q0)
    {
      this.r := r;
    }

    /** `getOrigin`: the two output references become the return values. */
    method GetOrigin() returns (p: int, q: int)
      ensures p == p0 && q == q0
    {
      p := p0;
      q := q0;
    }

    /** `getRadius` */
    function GetRadius(): (radius: int)
      reads this
      ensures radius == r
    {
      r
    }
  }

  //// distance ////////

  /** `y / 2`, minus one when `y` is negative: the row shift `distance`
      subtracts from the column to get the axial coordinate. */
  function HalfRowAsWritten(y: int): (h: int)
    ensures y >= 0 ==> h == y / 2
    ensures y < 0 ==> h == TruncDiv(y, 2) - 1
  {
    var h := TruncDiv(y, 2);
    if y < 0 then h - 1 else h
  }

  /** `distance(x0, y0, x1, y1)`: the largest of the three axial coordinate
      differences, with the row shift above. */
  function Distance(x0: int, y0: int, x1: int, y1: int): (d: nat)
    ensures d >= Abs(y1 - y0)
    ensures x0 == x1 && y0 == y1 ==> d == 0
  {
    var y0h := HalfRowAsWritten(y0);
    var y1h := HalfRowAsWritten(y1);
    var a := Abs(x1 - x0 - y1h + y0h);
    var b := Abs(y1 - y0);
    var c := Abs(x1 + y1 - y1h - x0 - y0 + y0h);
    Max(Max(a, b), c)
  }

  /** The distance from the first hexagon to the second is the distance
      back. */
  lemma DistanceSymmetric(x0: int, y0: int, x1: int, y1: int)
    ensures Distance(x0, y0, x1, y1) == Distance(x1, y1, x0, y0)
  {
    var y0h := HalfRowAsWritten(y0);
    var y1h := HalfRowAsWritten(y1);
    assert Abs(x1 - x0 - y1h + y0h) == Abs(x0 - x1 - y0h + y1h);
    assert Abs(y1 - y0) == Abs(y0 - y1);
    assert Abs(x1 + y1 - y1h - x0 - y0 + y0h) == Abs(x0 + y0 - y0h - x1 - y1 + y1h);
  }

  /** Going from one hexagon to another through a third is never shorter. */
  lemma DistanceTriangle(x0: int, y0: int, x1: int, y1: int, x2: int, y2: int)
    ensures Distance(x0, y0, x2, y2) <= Distance(x0, y0, x1, y1) + Distance(x1, y1, x2, y2)
  {
    var h0, h1, h2 := HalfRowAsWritten(y0), HalfRowAsWritten(y1), HalfRowAsWritten(y2);
    var p0, p1, p2 := x0 - h0, x1 - h1, x2 - h2;
    var r0, r1, r2 := x0 + y0 - h0, x1 + y1 - h1, x2 + y2 - h2;
    DistanceIsAxial(x0, y0, x1, y1, p0, r0, p1, r1);
    DistanceIsAxial(x1, y1, x2, y2, p1, r1, p2, r2);
    DistanceIsAxial(x0, y0, x2, y2, p0, r0, p2, r2);
    AxialTriangle(p0, y0, r0, p1, y1, r1, p2, y2, r2);
  }

  /** `distance` is the distance of the axial coordinates `(x - h, y,
      x + y - h)`, with `h` the row shift. */
  lemma DistanceIsAxial(x0: int, y0: int, x1: int, y1: int, p0: int, r0: int, p1: int, r1: int)
    requires p0 == x0 - HalfRowAsWritten(y0) && r0 == x0 + y0 - HalfRowAsWritten(y0)
    requires p1 == x1 - HalfRowAsWritten(y1) && r1 == x1 + y1 - HalfRowAsWritten(y1)
    ensures Distance(x0, y0, x1, y1) == Axial(p0, y0, r0, p1, y1, r1)
  {
    var h0, h1 := HalfRowAsWritten(y0), HalfRowAsWritten(y1);
    assert p1 - p0 == x1 - x0 - h1 + h0;
    assert r1 - r0 == x1 + y1 - h1 - x0 - y0 + h0;
  }

  /** The distance of two points in axial coordinates. */
  function Axial(p0: int, q0: int, r0: int, p1: int, q1: int, r1: int): nat
  {
    Max3(p1 - p0, q1 - q0, r1 - r0)
  }

  lemma AxialTriangle(p0: int, q0: int, r0: int, p1: int, q1: int, r1: int, p2: int, q2: int, r2: int)
    ensures Axial(p0, q0, r0, p2, q2, r2) <= Axial(p0, q0, r0, p1, q1, r1) + Axial(p1, q1, r1, p2, q2, r2)
  {
    AbsTriangle(p1 - p0, p2 - p1, p2 - p0);
    AbsTriangle(q1 - q0, q2 - q1, q2 - q0);
    AbsTriangle(r1 - r0, r2 - r1, r2 - r0);
  }

  /** The largest of three absolute values. */
  function Max3(a: int, b: int, c: int): (m: nat)
    ensures Abs(a) <= m && Abs(b) <= m && Abs(c) <= m
    ensures m == Abs(a) || m == Abs(b) || m == Abs(c)
  {
    Max(Max(Abs(a), Abs(b)), Abs(c))
  }

  lemma AbsTriangle(a: int, a': int, s: int)
    requires s == a + a'
    ensures Abs(s) <= Abs(a) + Abs(a')
  {
  }

  //// the layout and the distance it implies ////////

  /** `y % 2` in C++: the remainder takes the sign of `y`. */
  function TruncRem(y: int): (m: int)
    ensures y >= 0 ==> m == y % 2
    ensures y < 0 ==> m == -((-y) % 2)
    ensures y == 2 * TruncDiv(y, 2) + m
  {
    y - 2 * TruncDiv(y, 2)
  }

  /** Twice the factor of `sqrt(3) * R` in the horizontal position
      `getPixelPosition` gives the centre of hexagon (x, y): centres of one
      row are 2 apart, and a centre of an odd row sits 1 to the right of the
      even rows when `y > 0` and 1 to the left when `y < 0`. */
  function Column(x: int, y: int): int
  {
    2 * x + TruncRem(y)
  }

  /** Hexagons that share a side in that layout: the next centre along a
      row, or a centre of the row above or below half a hexagon away. */
  predicate Adjacent(x0: int, y0: int, x1: int, y1: int)
  {
    var dp := Abs(Column(x1, y1) - Column(x0, y0));
    (y0 == y1 && dp == 2) || (Abs(y1 - y0) == 1 && dp == 1)
  }

  /** The number of steps between two hexagons of the layout: each step
      changes the row by one and the column by one, or keeps the row and
      moves the column by two. */
  function LayoutDistance(x0: int, y0: int, x1: int, y1: int): (d: nat)
  {
    Steps(Abs(y1 - y0), Abs(Column(x1, y1) - Column(x0, y0)))
  }

  /** The steps for `dy` rows and `dp` columns: one column per row step,
      then two columns per step along a row. */
  function Steps(dy: nat, dp: nat): nat
  {
    if dp <= dy then dy else (dp + dy) / 2
  }

  /** The row shift that agrees with the layout: `y / 2` truncated, for every
      row. */
  function HalfRow(y: int): (h: int)
  {
    TruncDiv(y, 2)
  }

  /** `distance` with the row shift of the layout. */
  function DistanceCorrected(x0: int, y0: int, x1: int, y1: int): (d: nat)
  {
    var y0h := HalfRow(y0);
    var y1h := HalfRow(y1);
    var a := Abs(x1 - x0 - y1h + y0h);
    var b := Abs(y1 - y0);
    var c := Abs(x1 + y1 - y1h - x0 - y0 + y0h);
    Max(Max(a, b), c)
  }

  /** The corrected distance counts the steps of the layout, for all pairs
      of hexagons. */
  lemma DistanceCorrectedIsLayout(x0: int, y0: int, x1: int, y1: int)
    ensures DistanceCorrected(x0, y0, x1, y1) == LayoutDistance(x0, y0, x1, y1)
  {
    var dy := y1 - y0;
    var dq := x1 - HalfRow(y1) - (x0 - HalfRow(y0));
    var dp := Column(x1, y1) - Column(x0, y0);
    assert dp == 2 * dq + dy;
    assert DistanceCorrected(x0, y0, x1, y1) == Max(Max(Abs(dq), Abs(dy)), Abs(dq + dy));
  }

  /** Distance 1 is exactly sharing a side. */
  lemma LayoutDistanceOne(x0: int, y0: int, x1: int, y1: int)
    ensures LayoutDistance(x0, y0, x1, y1) == 1 <==> Adjacent(x0, y0, x1, y1)
  {
    var dc := Column(x1, y1) - Column(x0, y0);
    ColumnParity(x0, y0, x1, y1);
    AbsParity(dc, y1 - y0);
    StepsOne(Abs(y1 - y0), Abs(dc));
  }

  lemma AbsParity(a: int, b: int)
    requires (a - b) % 2 == 0
    ensures (Abs(a) - Abs(b)) % 2 == 0
  {
  }

  /** With row and column changes of the same parity, one step is a move
      along a row by two columns or to a neighbouring row by one. */
  lemma StepsOne(dy: nat, dp: nat)
    requires (dp - dy) % 2 == 0
    ensures Steps(dy, dp) == 1 <==> (dy == 0 && dp == 2) || (dy == 1 && dp == 1)
  {
  }

  /** Column and row change together in parity: centres of one row are an
      even number apart, of neighbouring rows an odd number. */
  lemma ColumnParity(x0: int, y0: int, x1: int, y1: int)
    ensures (Column(x1, y1) - Column(x0, y0) - (y1 - y0)) % 2 == 0
  {
    var k := (x1 - x0) - (HalfRow(y1) - HalfRow(y0));
    assert Column(x1, y1) - Column(x0, y0) - (y1 - y0) == 2 * k;
  }

  /** Every hexagon is at corrected distance 1 from the hexagons that share
      a side with it, and at a larger one from every other hexagon but
      itself. */
  lemma CorrectedNeighbours(x0: int, y0: int, x1: int, y1: int)
    ensures DistanceCorrected(x0, y0, x1, y1) == 1 <==> Adjacent(x0, y0, x1, y1)
  {
    DistanceCorrectedIsLayout(x0, y0, x1, y1);
    LayoutDistanceOne(x0, y0, x1, y1);
  }

  /** As written, the extra `- 1` for negative rows is the same for both
      hexagons when they lie on the same side of row 0, and then `distance`
      is the corrected distance. */
  lemma DistanceSameSide(x0: int, y0: int, x1: int, y1: int)
    requires (y0 < 0) == (y1 < 0)
    ensures Distance(x0, y0, x1, y1) == DistanceCorrected(x0, y0, x1, y1)
  {
    var shift := HalfRowAsWritten(y1) - HalfRowAsWritten(y0);
    assert shift == HalfRow(y1) - HalfRow(y0);
  }

  /** Across row 0 it is not: hexagon (0, -1), centred half a hexagon left of
      the origin, shares a side with hexagon (-1, 0), yet `distance` puts it
      two steps away. */
  lemma DistanceAcrossRowZero()
    ensures Adjacent(0, -1, -1, 0)
    ensures Distance(0, -1, -1, 0) == 2
    ensures DistanceCorrected(0, -1, -1, 0) == 1
  {
    AdjacentAcrossRowZero();
    AsWrittenAcrossRowZero();
    CorrectedAcrossRowZero();
  }

  lemma AdjacentAcrossRowZero()
    ensures Adjacent(0, -1, -1, 0)
  {
    ColumnsAcrossRowZero();
  }

  /** The centres of (0, -1) and (-1, 0) are one column apart. */
  lemma ColumnsAcrossRowZero()
    ensures Column(0, -1) == -1 && Column(-1, 0) == -2
  {
    ColumnOfZeroMinusOne();
    ColumnOfMinusOneZero();
  }

  lemma ColumnOfZeroMinusOne()
    ensures Column(0, -1) == -1
  {
    RemMinusOne();
  }

  lemma ColumnOfMinusOneZero()
    ensures Column(-1, 0) == -2
  {
    RemZero();
  }

  /** `-1 % 2 == -1` in C++. */
  lemma RemMinusOne()
    ensures TruncRem(-1) == -1
  {
    assert TruncDiv(-1, 2) == 0;
  }

  /** `0 % 2 == 0` in C++. */
  lemma RemZero()
    ensures TruncRem(0) == 0
  {
    assert TruncDiv(0, 2) == 0;
  }

  lemma AsWrittenAcrossRowZero()
    ensures Distance(0, -1, -1, 0) == 2
  {
    assert HalfRowAsWritten(-1) == -1 && HalfRowAsWritten(0) == 0;
  }

  lemma CorrectedAcrossRowZero()
    ensures DistanceCorrected(0, -1, -1, 0) == 1
  {
    assert HalfRow(-1) == 0 && HalfRow(0) == 0;
  }
}
