/** The two directions of the spiral mapping: spiral value to lattice point
    (`get_coords` in the crate) and lattice point to spiral value
    (`get_value_at_coords`), and the proof that they are mutually
    inverse bijections between the positive integers and the plane.
 */
module Mapping {
  import opened Ring
  import opened Diagonals

  datatype Option<T> = None | Some(value: T)

  /** The spiral value stored at `p`: the value of the corner ahead of `p` on
      its ring, minus the distance walked back from that corner to `p`. Every
      corner value is at least the distance subtracted from it, so the
      unsigned subtraction of `get_value_at_coords` never underflows. */
  function ValueAt(p: Coord): (v: nat)
    ensures v == 1 <==> p == Origin
    ensures p != Origin ==> RingBase(RingOf(p)) < v <= RingBase(RingOf(p)) + 8 * RingOf(p)
  {
    if p == Origin then 1
    else
      var ring := RingOf(p);
      var d := DiagonalAhead(p);
      var g := DiagonalValue(d, ring);
      match d
      case TopRight | BottomLeft => g.value - Abs(g.coord.y - p.y)
      case BottomRight | TopLeft => g.value - Abs(g.coord.x - p.x)
  }

  /** The k-th cell (1 <= k <= 8r) of ring r, counting anticlockwise from the
      cell just above the bottom-right corner of ring r: up the right edge to
      the TopRight corner (k = 2r), left along the top edge to TopLeft (4r),
      down the left edge to BottomLeft (6r), right along the bottom edge to
      BottomRight (8r). */
  function EdgePoint(ring: nat, k: int): (p: Coord)
    requires ring >= 1 && 1 <= k <= 8 * ring
    ensures p != Origin && RingOf(p) == ring
  {
    if k <= 2 * ring then Coord(ring, k - ring)
    else if k <= 4 * ring then Coord(3 * ring - k, ring)
    else if k <= 6 * ring then Coord(-(ring as int), 5 * ring - k)
    else Coord(k - 7 * ring, -(ring as int))
  }

  /** The k-th cell of ring r holds the k-th value of that ring. */
  lemma ValueAtEdgePoint(ring: nat, k: int)
    requires ring >= 1 && 1 <= k <= 8 * ring
    ensures ValueAt(EdgePoint(ring, k)) == RingBase(ring) + k
  {
    var p := EdgePoint(ring, k);
    var d := CornerAhead(ring, k);
    assert DiagonalAhead(p) == d;
    var g := DiagonalValue(d, ring);
    CornerCoord(d, ring);
    assert g.value == RingBase(ring) + CornerOffset(d, ring);
    match d
    case TopRight => assert ValueAt(p) == g.value - Abs(g.coord.y - p.y);
    case BottomLeft => assert ValueAt(p) == g.value - Abs(g.coord.y - p.y);
    case TopLeft => assert ValueAt(p) == g.value - Abs(g.coord.x - p.x);
    case BottomRight => assert ValueAt(p) == g.value - Abs(g.coord.x - p.x);
  }

  /** Every point other than the origin is an edge point of its own ring, at
      the position its value gives it. */
  lemma EdgePointOfValueAt(p: Coord)
    requires p != Origin
    ensures 1 <= ValueAt(p) - RingBase(RingOf(p)) <= 8 * RingOf(p)
    ensures EdgePoint(RingOf(p), ValueAt(p) - RingBase(RingOf(p))) == p
  {
  }

  /** A diagonal whose corner on the target's ring lies at or beyond the
      target, with the distance from the target forward to that corner. */
  datatype Candidate = Candidate(diag: Diagonal, corner: GridValue, diff: nat)

  /** The candidates of the diagonals in `order` (the iteration order of the
      attribute table): exactly those whose corner value is at least `target`. */
  function Candidates(target: nat, ring: nat, order: seq<Diagonal>): (cs: seq<Candidate>)
    ensures forall c {:trigger c in cs} :: c in cs ==>
              c.diag in order && c.corner == DiagonalValue(c.diag, ring)
              && c.corner.value >= target && c.diff == c.corner.value - target
    ensures forall d {:trigger d in order} :: d in order && DiagonalValue(d, ring).value >= target ==>
              Candidate(d, DiagonalValue(d, ring), DiagonalValue(d, ring).value - target) in cs
  {
    if order == [] then []
    else
      var g := DiagonalValue(order[0], ring);
      var rest := Candidates(target, ring, order[1..]);
      assert forall d :: d in order && d != order[0] ==> d in order[1..];
      if g.value >= target then [Candidate(order[0], g, g.value - target)] + rest else rest
  }

  /** The selection loop over the candidates: keep the first candidate whose
      difference is strictly smaller than the best seen so far. `best` starts
      as None, which stands for the placeholder of `get_coords` that any candidate
      replaces. The result is a candidate of least difference. */
  function Nearest(cs: seq<Candidate>, best: Option<Candidate>): (r: Option<Candidate>)
    ensures r.None? <==> best.None? && cs == []
    ensures r.Some? ==> r.value in cs || r == best
    ensures r.Some? ==> forall c :: c in cs ==> r.value.diff <= c.diff
    ensures r.Some? && best.Some? ==> r.value.diff <= best.value.diff
  {
    if cs == [] then best
    else
      var next := if best.None? || cs[0].diff < best.value.diff then Some(cs[0]) else best;
      Nearest(cs[1..], next)
  }

  /** The diagonal whose corner is the first one at or beyond the k-th cell of
      a ring (1 <= k <= 8r), i.e. the corner ending the edge that cell is on. */
  function CornerAhead(ring: nat, k: int): Diagonal
  {
    if k <= 2 * ring then TopRight
    else if k <= 4 * ring then TopLeft
    else if k <= 6 * ring then BottomLeft
    else BottomRight
  }

  /** The candidate list is never empty: the BottomRight corner (2r+1)^2 of
      the target's ring is at or beyond the target, so it is always a
      candidate. */
  lemma CandidatesIncludeBottomRight(target: nat, order: seq<Diagonal>)
    requires target >= 1
    requires forall d: Diagonal :: d in order
    ensures var ring := NumberRing(target);
            var g := DiagonalValue(BottomRight, ring);
            g.value >= target && Candidate(BottomRight, g, g.value - target) in Candidates(target, ring, order)
  {
    hide NumberRing;
    var ring := NumberRing(target);
    assert BottomRight in order;
  }

  /** On ring 0 (target 1) every corner is the origin holding 1, so the
      selection yields the origin whichever diagonal wins the tie. */
  lemma NearestAtCentre(order: seq<Diagonal>)
    requires forall d: Diagonal :: d in order
    ensures var r := Nearest(Candidates(1, 0, order), None);
            r.Some? && r.value.corner == GridValue(Origin, 1) && r.value.diff == 0
  {
    var g := DiagonalValue(BottomRight, 0);
    assert BottomRight in order;
    assert Candidate(BottomRight, g, g.value - 1) in Candidates(1, 0, order);
  }

  /** On ring r >= 1 the corner ahead of the target's cell is at or beyond
      the target, and every other corner at or beyond the target lies further
      on. */
  lemma CornerAheadIsNearest(target: nat, ring: nat, e: Diagonal)
    requires ring >= 1 && RingBase(ring) < target <= RingBase(ring) + 8 * ring
    ensures var d := CornerAhead(ring, target - RingBase(ring));
            DiagonalValue(d, ring).value >= target
            && (DiagonalValue(e, ring).value >= target ==> DiagonalValue(e, ring).value >= DiagonalValue(d, ring).value)
  {
    hide DiagonalValue;
  }

  /** On ring r >= 1 the selection picks the first corner at or beyond the
      target. It is unique, since the four corner values are distinct, and it
      exists, because the BottomRight corner (2r+1)^2 ends the ring, so the
      placeholder is never the answer. */
  lemma NearestOnRing(target: nat, ring: nat, order: seq<Diagonal>)
    requires ring >= 1 && RingBase(ring) < target <= RingBase(ring) + 8 * ring
    requires forall d: Diagonal :: d in order
    ensures var r := Nearest(Candidates(target, ring, order), None);
            r.Some? && r.value.diag == CornerAhead(ring, target - RingBase(ring))
            && r.value.corner == DiagonalValue(r.value.diag, ring)
            && r.value.diff == r.value.corner.value - target
  {
    hide *;
    var cs := Candidates(target, ring, order);
    var d := CornerAhead(ring, target - RingBase(ring));
    var g := DiagonalValue(d, ring);
    CornerAheadIsNearest(target, ring, d);
    var best := Candidate(d, g, g.value - target);
    assert d in order;
    assert best in cs;
    var r := Nearest(cs, None);
    assert r.value in cs;
    assert r.value.diff <= best.diff;
    CornerAheadIsNearest(target, ring, r.value.diag);
    CornerValuesDistinct(r.value.diag, d, ring);
  }

  /** The placeholder corner `get_coords` starts its selection from; it is
      replaced by the first candidate, and there always is one. */
  const Placeholder := Candidate(TopLeft, GridValue(Origin, 0), 0)

  /** Walk back from the corner `ahead` of diagonal `diag` along that
      diagonal's edge; `offset` (target minus corner value) is never positive. */
  function WalkBack(diag: Diagonal, ahead: GridValue, offset: int): Coord
  {
    match diag
    case TopLeft => Coord(ahead.coord.x - offset, ahead.coord.y)
    case TopRight => Coord(ahead.coord.x, ahead.coord.y + offset)
    case BottomLeft => Coord(ahead.coord.x, ahead.coord.y - offset)
    case BottomRight => Coord(ahead.coord.x + offset, ahead.coord.y)
  }

  /** Walking back from the corner ahead of the target's cell on ring r
      reaches that cell. */
  lemma WalkBackReachesEdgePoint(target: nat, ring: nat)
    requires ring >= 1 && RingBase(ring) < target <= RingBase(ring) + 8 * ring
    ensures var d := CornerAhead(ring, target - RingBase(ring));
            var g := DiagonalValue(d, ring);
            WalkBack(d, g, target - g.value) == EdgePoint(ring, target - RingBase(ring))
  {
    var k := target - RingBase(ring);
    var d := CornerAhead(ring, k);
    CornerCoord(d, ring);
  }

  /** The corner the target is walked back from: the nearest candidate, or
      the placeholder if there were none. */
  function ChosenCorner(target: nat, order: seq<Diagonal>): Candidate
    requires target >= 1
  {
    var chosen := Nearest(Candidates(target, NumberRing(target), order), None);
    if chosen.Some? then chosen.value else Placeholder
  }

  /** The chosen corner is the corner ahead of the target on its ring (the
      origin holding 1 on ring 0), never the placeholder. */
  lemma ChosenCornerIsAhead(target: nat, order: seq<Diagonal>)
    requires target >= 1
    requires forall d: Diagonal :: d in order
    ensures var ring := NumberRing(target);
            var c := ChosenCorner(target, order);
            if ring == 0 then c.corner == GridValue(Origin, 1) && c.diff == 0
            else
              var d := CornerAhead(ring, target - RingBase(ring));
              c == Candidate(d, DiagonalValue(d, ring), DiagonalValue(d, ring).value - target)
  {
    var ring := NumberRing(target);
    if ring == 0 {
      NearestAtCentre(order);
    } else {
      NearestOnRing(target, ring, order);
    }
  }

  /** The point holding spiral value `target` (`get_coords` in the crate),
      with `order` the iteration order of the attribute table: find the
      nearest corner at or beyond the target on its ring, then walk back from
      that corner along its edge by the difference. The result lies on the
      target's ring, at the position the target has on that ring. */
  function CoordsIn(target: nat, order: seq<Diagonal>): (p: Coord)
    requires target >= 1
    requires forall d: Diagonal :: d in order
    ensures RingOf(p) == NumberRing(target)
    ensures target == 1 ==> p == Origin
    ensures target >= 2 ==> p == EdgePoint(NumberRing(target), target - RingBase(NumberRing(target)))
  {
    var best := ChosenCorner(target, order);
    ChosenCornerIsAhead(target, order);
    if target >= 2 then
      WalkBackReachesEdgePoint(target, NumberRing(target));
      WalkBack(best.diag, best.corner, target - best.corner.value)
    else
      WalkBack(best.diag, best.corner, target - best.corner.value)
  }

  /** The point holding spiral value `target`, iterating the diagonals in
      declaration order. */
  function CoordsOf(target: nat): (p: Coord)
    requires target >= 1
    ensures RingOf(p) == NumberRing(target)
    ensures target == 1 ==> p == Origin
    ensures target >= 2 ==> p == EdgePoint(NumberRing(target), target - RingBase(NumberRing(target)))
  {
    AllDiagonalsComplete();
    CoordsIn(target, AllDiagonals)
  }

  /** The unspecified iteration order of the attribute table does not change
      the answer, not even in the ring-0 tie where all four corners are the
      origin. */
  lemma CoordsOrderIrrelevant(target: nat, order: seq<Diagonal>)
    requires target >= 1
    requires forall d: Diagonal :: d in order
    ensures CoordsIn(target, order) == CoordsOf(target)
  {
  }

  /** Inverse after forward: every positive value is found where it is
      stored, whatever the iteration order of the attribute table. */
  lemma ValueAtCoordsIn(v: nat, order: seq<Diagonal>)
    requires v >= 1
    requires forall d: Diagonal :: d in order
    ensures ValueAt(CoordsIn(v, order)) == v
  {
    hide *;
    var p := CoordsIn(v, order);
    if v >= 2 {
      var ring := NumberRing(v);
      var k := v - RingBase(ring);
      assert p == EdgePoint(ring, k);
      ValueAtEdgePoint(ring, k);
    } else {
      assert p == Origin;
    }
  }

  /** Inverse after forward, for the declaration-order table. */
  lemma ValueAtCoordsOf(v: nat)
    requires v >= 1
    ensures ValueAt(CoordsOf(v)) == v
  {
    AllDiagonalsComplete();
    ValueAtCoordsIn(v, AllDiagonals);
  }

  /** Forward after inverse: every point is where its value is found, so the
      mapping is onto the whole plane. */
  lemma CoordsOfValueAt(p: Coord)
    ensures CoordsOf(ValueAt(p)) == p
  {
    hide *;
    if p != Origin {
      var v := ValueAt(p);
      var ring := RingOf(p);
      var k := v - RingBase(ring);
      EdgePointOfValueAt(p);
      CoordsOfEdgePoint(v, ring, k);
    }
  }

  /** The k-th cell of ring r is where value (2r-1)^2 + k is found. */
  lemma CoordsOfEdgePoint(v: nat, ring: nat, k: int)
    requires ring >= 1 && 1 <= k <= 8 * ring && v == RingBase(ring) + k
    ensures CoordsOf(v) == EdgePoint(ring, k)
  {
    hide *;
    NumberRingUnique(v, ring);
  }

  /** CoordsOfEdgePoint with the ring's start written in closed form, so that
      concrete values need no ring-by-ring evaluation. */
  lemma CoordsOfAt(v: nat, ring: nat, k: int)
    requires ring >= 1 && 1 <= k <= 8 * ring && v == (2 * ring - 1) * (2 * ring - 1) + k
    ensures CoordsOf(v) == EdgePoint(ring, k)
    ensures ValueAt(EdgePoint(ring, k)) == v
  {
    hide *;
    RingBaseSquare(ring);
    CoordsOfEdgePoint(v, ring, k);
    ValueAtCoordsOf(v);
  }

  /** No two distinct values share a point. */
  lemma CoordsOfInjective(a: nat, b: nat)
    requires a >= 1 && b >= 1
    requires CoordsOf(a) == CoordsOf(b)
    ensures a == b
  {
    ValueAtCoordsOf(a);
    ValueAtCoordsOf(b);
  }

  /** No two distinct points hold the same value. */
  lemma ValueAtInjective(p: Coord, q: Coord)
    requires ValueAt(p) == ValueAt(q)
    ensures p == q
  {
    CoordsOfValueAt(p);
    CoordsOfValueAt(q);
  }

  /** The points listed for `get_coords` in the crate's unit tests. */
  lemma CoordsOfExamples()
    ensures CoordsOf(1) == Origin && CoordsOf(2) == Coord(1, 0) && CoordsOf(3) == Coord(1, 1)
    ensures CoordsOf(7) == Coord(-1, -1) && CoordsOf(9) == Coord(1, -1)
    ensures CoordsOf(25) == Coord(2, -2) && CoordsOf(49) == Coord(3, -3)
    ensures CoordsOf(281) == Coord(0, -8) && CoordsOf(100) == Coord(-4, 5)
  {
    hide CoordsOf, ValueAt, NumberRing, RingBase;
    CoordsOfAt(2, 1, 1);
    CoordsOfAt(3, 1, 2);
    CoordsOfAt(7, 1, 6);
    CoordsOfAt(9, 1, 8);
    CoordsOfAt(25, 2, 16);
    CoordsOfAt(49, 3, 24);
    CoordsOfAt(281, 8, 56);
    CoordsOfAt(100, 5, 19);
  }

  /** The values listed for `get_value_at_coords` in the crate's unit tests. */
  lemma ValueAtExamples()
    ensures ValueAt(Origin) == 1 && ValueAt(Coord(1, 0)) == 2 && ValueAt(Coord(1, 1)) == 3
    ensures ValueAt(Coord(0, 1)) == 4 && ValueAt(Coord(1, -1)) == 9
    ensures ValueAt(Coord(2, -1)) == 10 && ValueAt(Coord(2, 0)) == 11
  {
    hide CoordsOf, ValueAt, NumberRing, RingBase;
    CoordsOfAt(2, 1, 1);
    CoordsOfAt(3, 1, 2);
    CoordsOfAt(4, 1, 3);
    CoordsOfAt(9, 1, 8);
    CoordsOfAt(10, 2, 1);
    CoordsOfAt(11, 2, 2);
  }
}
