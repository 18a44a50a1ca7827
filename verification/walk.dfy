/** An independent description of the spiral: start at the centre and take
    one unit step per value, turning anticlockwise at every corner and moving
    out to the next ring after each bottom-right corner. The corner-based
    mapping of `get_coords` visits exactly the points of this walk.
 */
module Spiral {
  import opened Ring
  import opened Diagonals
  import opened Mapping

  /** The unit step from the cell holding n to the cell holding n + 1, read
      off the cell alone: at a bottom-right corner (or the centre) step right
      onto the next ring; otherwise go up the right edge, left along the top,
      down the left edge and right along the bottom. */
  function Step(p: Coord): (q: Coord)
    ensures Abs(q.x - p.x) + Abs(q.y - p.y) == 1
  {
    var r := RingOf(p);
    if p.x == r && p.y == -(r as int) then Coord(p.x + 1, p.y)
    else if p.x == r && p.y < r then Coord(p.x, p.y + 1)
    else if p.y == r && p.x > -(r as int) then Coord(p.x - 1, p.y)
    else if p.x == -(r as int) && p.y > -(r as int) then Coord(p.x, p.y - 1)
    else Coord(p.x + 1, p.y)
  }

  /** The cell reached after n - 1 steps from the centre. */
  function Walk(n: nat): Coord
    requires n >= 1
  {
    if n == 1 then Origin else Step(Walk(n - 1))
  }

  /** Inside a ring, one step moves from the k-th cell to the (k+1)-th. */
  lemma StepAlongRing(ring: nat, k: int)
    requires ring >= 1 && 1 <= k < 8 * ring
    ensures Step(EdgePoint(ring, k)) == EdgePoint(ring, k + 1)
  {
  }

  /** From the last cell of a ring, its bottom-right corner, one step leads to
      the first cell of the next ring. */
  lemma StepLeavesRing(ring: nat)
    ensures Step(if ring == 0 then Origin else EdgePoint(ring, 8 * ring)) == EdgePoint(ring + 1, 1)
  {
  }

  /** Consecutive values sit at consecutive cells of the walk. */
  lemma StepFollowsSpiral(n: nat)
    requires n >= 1
    ensures CoordsOf(n + 1) == Step(CoordsOf(n))
  {
    hide *;
    var m := n + 1;
    if n == 1 {
      RingBaseSquare(1);
      StepLeavesRing(0);
      CoordsOfEdgePoint(m, 1, 1);
    } else {
      var ring := NumberRing(n);
      var k := n - RingBase(ring);
      CoordsOfEdgePoint(n, ring, k);
      if k < 8 * ring {
        StepAlongRing(ring, k);
        CoordsOfEdgePoint(m, ring, k + 1);
      } else {
        RingEnd(ring);
        RingBaseSquare(ring + 1);
        StepLeavesRing(ring);
        CoordsOfEdgePoint(m, ring + 1, 1);
      }
    }
  }

  /** The corner-based mapping and the walk agree on every positive value. */
  lemma {:induction false} CoordsOfIsWalk(n: nat)
    requires n >= 1
    ensures CoordsOf(n) == Walk(n)
  {
    if n > 1 {
      CoordsOfIsWalk(n - 1);
      StepFollowsSpiral(n - 1);
    }
  }
}
