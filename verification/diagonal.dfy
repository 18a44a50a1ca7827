/** The geometry of the spiral: lattice points, the four corner diagonals with
    their fixed generating attributes, the closed-form corner values, and the
    classifier that says which corner's edge a point lies on.
 */
module Diagonals {
  import opened Ring

  /** A lattice point; x grows to the right, y grows upwards. */
  datatype Coord = Coord(x: int, y: int)

  const Origin := Coord(0, 0)

  function Abs(n: int): nat
  {
    if n < 0 then -n else n
  }

  /** The ring a point lies on: its Chebyshev distance from the centre. */
  function RingOf(p: Coord): nat
  {
    if Abs(p.x) < Abs(p.y) then Abs(p.y) else Abs(p.x)
  }

  /** A point together with the spiral value stored there. */
  datatype GridValue = GridValue(coord: Coord, value: nat)

  /** The four corner directions of the spiral. */
  datatype Diagonal = TopLeft | TopRight | BottomLeft | BottomRight

  /** The four diagonals in declaration order. */
  const AllDiagonals: seq<Diagonal> := [TopLeft, TopRight, BottomLeft, BottomRight]

  /** The declaration-order list names every diagonal. */
  lemma AllDiagonalsComplete()
    ensures forall d: Diagonal :: d in AllDiagonals
  {
    forall d: Diagonal
      ensures d in AllDiagonals
    {
      match d
      case TopLeft => assert AllDiagonals[0] == d;
      case TopRight => assert AllDiagonals[1] == d;
      case BottomLeft => assert AllDiagonals[2] == d;
      case BottomRight => assert AllDiagonals[3] == d;
    }
  }

  /** The generating attributes of one diagonal: the unit step from one ring's
      corner to the next, and the base constant of its value formula. */
  datatype GeneratorAttributes = GeneratorAttributes(baseValue: nat, xIncr: int, yIncr: int)

  /** The fixed attribute table of the four diagonals. */
  function Attributes(d: Diagonal): GeneratorAttributes
  {
    match d
    case TopLeft => GeneratorAttributes(5, -1, 1)
    case TopRight => GeneratorAttributes(3, 1, 1)
    case BottomLeft => GeneratorAttributes(7, -1, -1)
    case BottomRight => GeneratorAttributes(9, 1, -1)
  }

  /** How far into ring r >= 1 the corner of `d` lies: walking anticlockwise
      from the bottom-right corner of ring r - 1, the corners come in the order
      TopRight, TopLeft, BottomLeft, BottomRight, each 2r cells after the
      previous one. */
  function CornerOffset(d: Diagonal, ring: nat): nat
  {
    match d
    case TopRight => 2 * ring
    case TopLeft => 4 * ring
    case BottomLeft => 6 * ring
    case BottomRight => 8 * ring
  }

  /** Each diagonal has its own direction, one per quadrant, and every
      direction is a diagonal unit step. */
  lemma DirectionsIdentifyDiagonal(d: Diagonal, e: Diagonal)
    ensures Abs(Attributes(d).xIncr) == 1 && Abs(Attributes(d).yIncr) == 1
    ensures Attributes(d).xIncr == Attributes(e).xIncr && Attributes(d).yIncr == Attributes(e).yIncr
            <==> d == e
  {
  }

  /** The corner formula 4 r^2 - r (5 - base) + 1 counts CornerOffset cells
      into ring r past (2r-1)^2; on ring 0 it gives the centre value 1. */
  lemma CornerFormula(d: Diagonal, ring: nat)
    ensures 4 * (ring * ring) - ring * (5 - Attributes(d).baseValue) + 1
            == RingBase(ring) + (if ring == 0 then 0 else CornerOffset(d, ring))
  {
    RingBaseSquare(ring);
    assert (2 * ring - 1) * (2 * ring - 1) == 4 * (ring * ring) - 4 * ring + 1;
  }

  /** The corner of diagonal `d` on ring `ring`, with the value stored there:
      4 r^2 - r (5 - base) + 1. The crate evaluates the formula in 128-bit
      arithmetic; here it is exact. */
  function DiagonalValue(d: Diagonal, ring: nat): (g: GridValue)
    ensures RingOf(g.coord) == ring
    ensures ring == 0 ==> g == GridValue(Origin, 1)
    ensures ring >= 1 ==> g.value == RingBase(ring) + CornerOffset(d, ring)
    ensures ring >= 1 ==> (g.coord.x > 0 <==> d == TopRight || d == BottomRight)
    ensures ring >= 1 ==> (g.coord.y > 0 <==> d == TopLeft || d == TopRight)
    ensures g.value >= 1
  {
    var a := Attributes(d);
    CornerFormula(d, ring);
    var v := 4 * (ring * ring) - ring * (5 - a.baseValue) + 1;
    GridValue(Coord(a.xIncr * ring, a.yIncr * ring), v)
  }

  /** The corner of each diagonal on ring r, written out. */
  lemma CornerCoord(d: Diagonal, ring: nat)
    ensures DiagonalValue(d, ring).coord == match d
      case TopLeft => Coord(-(ring as int), ring)
      case TopRight => Coord(ring, ring)
      case BottomLeft => Coord(-(ring as int), -(ring as int))
      case BottomRight => Coord(ring, -(ring as int))
  {
  }

  /** Along one ring the four corner values are strictly ordered
      TopRight < TopLeft < BottomLeft < BottomRight, each 2r apart, and the
      BottomRight corner closes the ring at (2r+1)^2. */
  lemma CornerValuesOrdered(ring: nat)
    requires ring >= 1
    ensures DiagonalValue(TopLeft, ring).value == DiagonalValue(TopRight, ring).value + 2 * ring
    ensures DiagonalValue(BottomLeft, ring).value == DiagonalValue(TopLeft, ring).value + 2 * ring
    ensures DiagonalValue(BottomRight, ring).value == DiagonalValue(BottomLeft, ring).value + 2 * ring
    ensures DiagonalValue(BottomRight, ring).value == (2 * ring + 1) * (2 * ring + 1)
  {
    RingEnd(ring);
  }

  /** On ring r >= 1 distinct diagonals have distinct corner values. */
  lemma CornerValuesDistinct(d: Diagonal, e: Diagonal, ring: nat)
    requires ring >= 1
    requires DiagonalValue(d, ring).value == DiagonalValue(e, ring).value
    ensures d == e
  {
  }

  /** The corner values listed in the crate's unit tests for rings 0, 1 and 2. */
  lemma DiagonalValueExamples()
    ensures forall d :: DiagonalValue(d, 0) == GridValue(Origin, 1)
    ensures DiagonalValue(TopLeft, 1) == GridValue(Coord(-1, 1), 5)
    ensures DiagonalValue(TopLeft, 2) == GridValue(Coord(-2, 2), 17)
    ensures DiagonalValue(TopRight, 1) == GridValue(Coord(1, 1), 3)
    ensures DiagonalValue(TopRight, 2) == GridValue(Coord(2, 2), 13)
    ensures DiagonalValue(BottomLeft, 1) == GridValue(Coord(-1, -1), 7)
    ensures DiagonalValue(BottomLeft, 2) == GridValue(Coord(-2, -2), 21)
    ensures DiagonalValue(BottomRight, 1) == GridValue(Coord(1, -1), 9)
    ensures DiagonalValue(BottomRight, 2) == GridValue(Coord(2, -2), 25)
  {
  }

  /** The diagonal whose corner ends the edge `p` lies on, walking the spiral
      anticlockwise (`get_diagonal_ahead` in the crate). Each diagonal owns a
      half-open quarter of the plane: its edge of every ring, corner included,
      start excluded. The origin is on no edge and callers never pass it. */
  function DiagonalAhead(p: Coord): (d: Diagonal)
    requires p != Origin
    ensures d == TopRight <==> p.x > 0 && -p.x < p.y <= p.x
    ensures d == TopLeft <==> p.y > 0 && -p.y <= p.x < p.y
    ensures d == BottomLeft <==> p.x < 0 && p.x <= p.y < -p.x
    ensures d == BottomRight <==> p.y < 0 && p.y < p.x <= -p.y
  {
    var x, y := p.x, p.y;
    if Abs(x) == Abs(y) then
      if x > 0 && y > 0 then TopRight
      else if x > 0 && y < 0 then BottomRight
      else if x < 0 && y > 0 then TopLeft
      else if x < 0 && y < 0 then BottomLeft
      else assert false; TopLeft
    else if x > Abs(y) then TopRight       // right sector
    else if x < -(Abs(y) as int) then BottomLeft    // left sector
    else if Abs(x) < y then TopLeft        // top sector
    else if -(Abs(x) as int) > y then BottomRight   // bottom sector
    else assert false; TopLeft
  }

  /** Every ring corner classifies as its own diagonal. */
  lemma CornerClassifiesAsItsDiagonal(d: Diagonal, ring: nat)
    requires ring >= 1
    ensures DiagonalValue(d, ring).coord != Origin
    ensures DiagonalAhead(DiagonalValue(d, ring).coord) == d
  {
  }

  /** The classifications listed in the crate's unit tests. */
  lemma DiagonalAheadExamples()
    ensures DiagonalAhead(Coord(0, 1)) == TopLeft && DiagonalAhead(Coord(-1, 1)) == TopLeft
    ensures DiagonalAhead(Coord(1, 2)) == TopLeft && DiagonalAhead(Coord(-1, 2)) == TopLeft
    ensures DiagonalAhead(Coord(-2, 2)) == TopLeft && DiagonalAhead(Coord(9999, 10000)) == TopLeft
    ensures DiagonalAhead(Coord(1, 0)) == TopRight && DiagonalAhead(Coord(1, 1)) == TopRight
    ensures DiagonalAhead(Coord(2, 1)) == TopRight && DiagonalAhead(Coord(2, -1)) == TopRight
    ensures DiagonalAhead(Coord(2, 2)) == TopRight && DiagonalAhead(Coord(10000, -9999)) == TopRight
    ensures DiagonalAhead(Coord(-1, 0)) == BottomLeft && DiagonalAhead(Coord(-1, -1)) == BottomLeft
    ensures DiagonalAhead(Coord(-2, 1)) == BottomLeft && DiagonalAhead(Coord(-2, -2)) == BottomLeft
    ensures DiagonalAhead(Coord(-10000, 9999)) == BottomLeft
    ensures DiagonalAhead(Coord(0, -1)) == BottomRight && DiagonalAhead(Coord(1, -2)) == BottomRight
    ensures DiagonalAhead(Coord(-1, -2)) == BottomRight && DiagonalAhead(Coord(-2, -3)) == BottomRight
    ensures DiagonalAhead(Coord(-9999, -10000)) == BottomRight
  {
  }
}
