/** The crate's 64-bit arithmetic as written, for a release build: an `as`
    cast keeps the low bits of its operand, and an arithmetic overflow wraps
    around (a debug build would panic there instead). The rest of the model
    uses exact integers. This module pins down where the two agree: `get_coords`
    agrees with the exact mapping below `WrapStart`, and `grambulate` returns
    the exact result reduced modulo 2^64. It also gives inputs where the
    64-bit results are wrong.
 */
module Wrapping {
  import opened Ring
  import opened Diagonals
  import opened Mapping
  import opened Grambulation

  const TwoTo31: nat := 0x8000_0000
  const TwoTo32: nat := 0x1_0000_0000
  const TwoTo62: nat := 0x4000_0000_0000_0000
  const TwoTo63: nat := 0x8000_0000_0000_0000
  const TwoTo64: nat := 0x1_0000_0000_0000_0000

  /** The first target whose point `get_coords` loses: every larger u64
      target lies beyond the last corner whose value still fits in 64 bits. */
  const WrapStart: nat := 0xFFFF_FFFF_0000_0002

  /** `v as u64`: the low 64 bits of `v`, read as an unsigned number. */
  function AsU64(v: int): (w: nat)
    ensures w < TwoTo64
    ensures 0 <= v < TwoTo64 ==> w == v
  {
    v % TwoTo64
  }

  /** `v as i64`, and wrapping i64 arithmetic: the low 64 bits of `v`, read
      in two's complement. */
  function AsI64(v: int): (w: int)
    ensures -(TwoTo63 as int) <= w < TwoTo63
    ensures -(TwoTo63 as int) <= v < TwoTo63 ==> w == v
  {
    var u := v % TwoTo64;
    if u >= TwoTo63 then u - TwoTo64 else u
  }

  /** Numbers that differ by a multiple of 2^64 have the same low 64 bits. */
  lemma SameLowBits(a: int, b: int, t: int)
    requires a == b + TwoTo64 * t
    ensures AsU64(a) == AsU64(b)
  {
  }

  /** `get_diagonal_value` as written: `ring.pow(2)` is a wrapping u64
      square, the coordinates are i64 products, and the 128-bit corner
      formula is cast back to u64. Only the low 64 bits of the exact corner
      value survive; the corner point is exact for every i64 ring. */
  function CornerAsWritten(d: Diagonal, ring: nat): (g: GridValue)
    requires ring < TwoTo64
    ensures g.value == AsU64(DiagonalValue(d, ring).value)
    ensures ring < TwoTo63 ==> g.coord == DiagonalValue(d, ring).coord
  {
    var a := Attributes(d);
    var square := AsU64(ring * ring);
    var value := AsU64(4 * square - ring * (5 - a.baseValue) + 1);
    SameLowBits(4 * (ring * ring) - ring * (5 - a.baseValue) + 1,
                4 * square - ring * (5 - a.baseValue) + 1, 4 * ((ring * ring) / TwoTo64));
    GridValue(Coord(AsI64(a.xIncr * AsI64(ring)), AsI64(a.yIncr * AsI64(ring))), value)
  }

  /** On rings below 2^31 every corner value is below (2^32 - 1)^2, so the
      cast keeps it whole. */
  lemma CornerFitsBelowTopRing(d: Diagonal, ring: nat)
    requires ring < TwoTo31
    ensures CornerAsWritten(d, ring) == DiagonalValue(d, ring)
  {
    hide DiagonalValue, RingBase;
    if ring >= 1 {
      RingEnd(ring);
      SquareMonotone(2 * ring + 1, TwoTo32 - 1);
    }
  }

  /** The corners of ring 2^31 as `get_diagonal_value` returns them: the
      TopRight value 2^64 - 2^32 + 1 still fits; the other three exceed 2^64
      and keep only their low bits, 1, 2^32 + 1 and 2^33 + 1. */
  lemma TopRingCorners()
    ensures CornerAsWritten(TopRight, TwoTo31) == DiagonalValue(TopRight, TwoTo31)
    ensures CornerAsWritten(TopRight, TwoTo31).value == WrapStart - 1
    ensures CornerAsWritten(TopLeft, TwoTo31).value == 1
    ensures CornerAsWritten(BottomLeft, TwoTo31).value == TwoTo32 + 1
    ensures CornerAsWritten(BottomRight, TwoTo31).value == 2 * TwoTo32 + 1
  {
    hide CornerAsWritten, RingBase, CornerOffset;
    assert DiagonalValue(TopRight, TwoTo31).value == WrapStart - 1;
    assert DiagonalValue(TopLeft, TwoTo31).value == TwoTo64 + 1;
    assert DiagonalValue(BottomLeft, TwoTo31).value == TwoTo64 + TwoTo32 + 1;
    assert DiagonalValue(BottomRight, TwoTo31).value == TwoTo64 + 2 * TwoTo32 + 1;
  }

  /** A u64 target lies on ring 2^31 at most: ring 2^31 + 1 starts beyond
      (2^32 + 1)^2 > 2^64. */
  lemma RingOfU64(target: nat)
    requires 1 <= target < TwoTo64
    ensures NumberRing(target) <= TwoTo31
  {
    hide NumberRing, RingBase;
    var r := NumberRing(target);
    if r > TwoTo31 {
      RingBaseSquare(r);
      SquareMonotone(TwoTo32 + 1, 2 * r - 1);
    }
  }

  /** The candidates of `get_coords` as written: the diagonals in `order`
      whose truncated corner value is at least the target, with the distance
      forward from the target. */
  function CandidatesAsWritten(target: nat, ring: nat, order: seq<Diagonal>): seq<Candidate>
    requires ring < TwoTo64
  {
    if order == [] then []
    else
      var g := CornerAsWritten(order[0], ring);
      var rest := CandidatesAsWritten(target, ring, order[1..]);
      if g.value >= target then [Candidate(order[0], g, g.value - target)] + rest else rest
  }

  /** Every candidate's difference is below u64::MAX, so the placeholder's
      difference u64::MAX is beaten by the first candidate, and "no
      candidate yet" models the placeholder exactly. */
  lemma {:induction false} PlaceholderAlwaysBeaten(target: nat, ring: nat, order: seq<Diagonal>)
    requires target >= 1 && ring < TwoTo64
    ensures forall c :: c in CandidatesAsWritten(target, ring, order) ==> c.diff < TwoTo64 - 1
  {
    if order != [] {
      PlaceholderAlwaysBeaten(target, ring, order[1..]);
    }
  }

  /** Below ring 2^31 no corner is truncated, so the candidates are exactly
      those of the exact model. */
  lemma {:induction false} CandidatesAgreeBelowTopRing(target: nat, ring: nat, order: seq<Diagonal>)
    requires ring < TwoTo31
    ensures CandidatesAsWritten(target, ring, order) == Candidates(target, ring, order)
  {
    if order != [] {
      CandidatesAgreeBelowTopRing(target, ring, order[1..]);
      CornerFitsBelowTopRing(order[0], ring);
    }
  }

  /** On ring 2^31 only the TopRight corner can still be a candidate, and
      only for targets below WrapStart. */
  lemma TopRingCandidates(target: nat)
    requires RingBase(TwoTo31) < target
    ensures var g := CornerAsWritten(TopRight, TwoTo31);
            CandidatesAsWritten(target, TwoTo31, AllDiagonals)
            == if target < WrapStart then [Candidate(TopRight, g, g.value - target)] else []
  {
    hide CornerAsWritten, RingBase;
    RingBaseSquare(TwoTo31);
    TopRingCorners();
    var r := TwoTo31;
    assert [BottomRight][1..] == [];
    assert CandidatesAsWritten(target, r, [BottomRight]) == [];
    assert [BottomLeft, BottomRight][1..] == [BottomRight];
    assert CandidatesAsWritten(target, r, [BottomLeft, BottomRight]) == [];
    assert [TopRight, BottomLeft, BottomRight][1..] == [BottomLeft, BottomRight];
    assert AllDiagonals[1..] == [TopRight, BottomLeft, BottomRight];
  }

  /** The corner `get_coords` as written walks back from: the nearest
      candidate, or the placeholder when there is none. */
  function ChosenCornerAsWritten(target: nat): Candidate
    requires 1 <= target < TwoTo64
  {
    RingOfU64(target);
    var chosen := Nearest(CandidatesAsWritten(target, NumberRing(target), AllDiagonals), None);
    if chosen.Some? then chosen.value else Placeholder
  }

  /** Below WrapStart the written code chooses the same corner as the exact
      model. */
  lemma ChosenCornerAgrees(target: nat)
    requires 1 <= target < WrapStart
    ensures ChosenCornerAsWritten(target) == ChosenCorner(target, AllDiagonals)
  {
    hide CornerAsWritten, DiagonalValue, RingBase, NumberRing;
    RingOfU64(target);
    var ring := NumberRing(target);
    if ring < TwoTo31 {
      CandidatesAgreeBelowTopRing(target, ring, AllDiagonals);
    } else {
      RingBaseSquare(TwoTo31);
      TopRingCandidates(target);
      TopRingCorners();
      AllDiagonalsComplete();
      ChosenCornerIsAhead(target, AllDiagonals);
      assert CornerAhead(ring, target - RingBase(ring)) == TopRight;
    }
  }

  /** From WrapStart on, no corner value reaches the target and the written
      code falls back to the placeholder. */
  lemma ChosenCornerLost(target: nat)
    requires WrapStart <= target < TwoTo64
    ensures ChosenCornerAsWritten(target) == Placeholder
  {
    hide CornerAsWritten, DiagonalValue, RingBase, NumberRing;
    RingBaseSquare(TwoTo31);
    NumberRingUnique(target, TwoTo31);
    TopRingCandidates(target);
  }

  /** The walk back of `get_coords` as written: the offset is cast to i64
      and added to the corner point with wrapping i64 arithmetic. For small
      numbers this is the exact walk back. */
  function WalkBackAsWritten(diag: Diagonal, ahead: GridValue, delta: int): (p: Coord)
    ensures Abs(ahead.coord.x) < TwoTo62 && Abs(ahead.coord.y) < TwoTo62 && Abs(delta) < TwoTo62
            ==> p == WalkBack(diag, ahead, delta)
  {
    var offset := match diag
      case TopLeft => (AsI64(-delta), 0)
      case TopRight => (0, AsI64(delta))
      case BottomLeft => (0, AsI64(-delta))
      case BottomRight => (AsI64(delta), 0);
    Coord(AsI64(ahead.coord.x + offset.0), AsI64(ahead.coord.y + offset.1))
  }

  /** `get_coords` as written, iterating the table in declaration order. */
  function CoordsAsWritten(target: nat): Coord
    requires 1 <= target < TwoTo64
  {
    var best := ChosenCornerAsWritten(target);
    WalkBackAsWritten(best.diag, best.corner, target - best.corner.value)
  }

  /** The corner the exact model walks back from lies on a ring of at most
      2^31, at most 8 * 2^31 values beyond the target. */
  lemma ChosenCornerNearCentre(target: nat)
    requires 1 <= target < TwoTo64
    ensures var best := ChosenCorner(target, AllDiagonals);
            Abs(best.corner.coord.x) <= TwoTo31 && Abs(best.corner.coord.y) <= TwoTo31
            && 0 <= best.corner.value - target <= 8 * TwoTo31
  {
    hide ChosenCorner, NumberRing, RingBase, DiagonalValue;
    RingOfU64(target);
    AllDiagonalsComplete();
    ChosenCornerIsAhead(target, AllDiagonals);
    var ring := NumberRing(target);
    if ring >= 1 {
      var d := CornerAhead(ring, target - RingBase(ring));
      CornerCoord(d, ring);
      CornerAheadIsNearest(target, ring, d);
      CornerAheadIsNearest(target, ring, BottomRight);
    }
  }

  /** Below WrapStart `get_coords` as written finds the exact point of the
      target; from WrapStart on it returns the placeholder's point
      (2^64 - target, 0) on the positive x-axis. Either way the point lies
      within 2^32 of the centre. */
  lemma CoordsAsWrittenCases(target: nat)
    requires 1 <= target < TwoTo64
    ensures target < WrapStart ==> CoordsAsWritten(target) == CoordsOf(target)
    ensures target >= WrapStart ==> CoordsAsWritten(target) == Coord(TwoTo64 - target, 0)
    ensures RingOf(CoordsAsWritten(target)) <= TwoTo32
  {
    hide ChosenCornerAsWritten, ChosenCorner, NumberRing, RingBase, DiagonalValue;
    RingOfU64(target);
    if target < WrapStart {
      ChosenCornerAgrees(target);
      ChosenCornerNearCentre(target);
      AllDiagonalsComplete();
      assert CoordsOf(target) == CoordsIn(target, AllDiagonals);
    } else {
      ChosenCornerLost(target);
    }
  }

  /** The distance `get_value_at_coords` walks back from the corner `g` of
      diagonal `d` to `p`: the i64 difference of the coordinates along that
      diagonal's edge, taken as an unsigned absolute value. */
  function DistanceAsWritten(d: Diagonal, g: GridValue, p: Coord): nat
  {
    match d
    case TopRight | BottomLeft => Abs(AsI64(g.coord.y - p.y))
    case BottomRight | TopLeft => Abs(AsI64(g.coord.x - p.x))
  }

  /** `get_value_at_coords` as written, for points whose coordinates are i64
      values other than i64::MIN: the ring is cast to u64, the corner value
      is truncated, and the final subtraction wraps. On rings below 2^62 the
      result is the exact value reduced modulo 2^64. */
  function ValueAtAsWritten(p: Coord): (v: nat)
    requires -(TwoTo63 as int) < p.x < TwoTo63 && -(TwoTo63 as int) < p.y < TwoTo63
    ensures v < TwoTo64
    ensures RingOf(p) < TwoTo62 ==> v == AsU64(ValueAt(p))
  {
    hide ValueAt, DiagonalValue, CornerAsWritten, DistanceAsWritten;
    if p == Origin then 1
    else
      var d := DiagonalAhead(p);
      var g := CornerAsWritten(d, AsU64(RingOf(p)));
      ValueAtAsWrittenReduces(p);
      AsU64(g.value - DistanceAsWritten(d, g, p))
  }

  /** The reduction modulo 2^64 of ValueAtAsWritten, proved on its body. */
  lemma ValueAtAsWrittenReduces(p: Coord)
    requires -(TwoTo63 as int) < p.x < TwoTo63 && -(TwoTo63 as int) < p.y < TwoTo63
    requires p != Origin
    ensures var d := DiagonalAhead(p);
            var g := CornerAsWritten(d, AsU64(RingOf(p)));
            RingOf(p) < TwoTo62 ==> AsU64(g.value - DistanceAsWritten(d, g, p)) == AsU64(ValueAt(p))
  {
    hide CornerAsWritten, DiagonalValue, RingBase, NumberRing;
    var ring := RingOf(p);
    if ring < TwoTo62 {
      var d := DiagonalAhead(p);
      var g := CornerAsWritten(d, ring);
      var e := DiagonalValue(d, ring);
      CornerCoord(d, ring);
      var dist := match d
        case TopRight | BottomLeft => Abs(e.coord.y - p.y)
        case BottomRight | TopLeft => Abs(e.coord.x - p.x);
      assert ValueAt(p) == e.value - dist;
      assert DistanceAsWritten(d, g, p) == dist;
      SameLowBits(e.value - dist, g.value - dist, e.value / TwoTo64);
    }
  }

  /** The reflection of `grambulate` as written: the difference vector and
      the sum in wrapping i64 arithmetic. For points within 2^32 of the
      centre nothing wraps and it is the exact reflection. */
  function ReflectAsWritten(a: Coord, b: Coord): (c: Coord)
    requires RingOf(a) <= TwoTo32 && RingOf(b) <= TwoTo32
    ensures c == Reflect(a, b)
    ensures RingOf(c) <= 3 * TwoTo32
  {
    hide AsI64;
    assert Abs(a.x) <= TwoTo32 && Abs(a.y) <= TwoTo32 && Abs(b.x) <= TwoTo32 && Abs(b.y) <= TwoTo32;
    var diff := (AsI64(b.x - a.x), AsI64(b.y - a.y));
    assert diff == (b.x - a.x, b.y - a.y);
    Coord(AsI64(b.x + diff.0), AsI64(b.y + diff.1))
  }

  /** `grambulate` as written, for u64 inputs: both points from
      `get_coords`, the reflection in i64 arithmetic, and the value from
      `get_value_at_coords`. An error exactly when an input is zero;
      otherwise a u64 value, never larger. */
  function GrambulateAsWritten(a: nat, b: nat): (r: Result<nat>)
    requires a < TwoTo64 && b < TwoTo64
    ensures r.Err? <==> a == 0 || b == 0
    ensures r.Ok? ==> r.value < TwoTo64
  {
    if a == 0 || b == 0 then Err(ZeroInput)
    else
      var pa := CoordsAsWritten(a);
      var pb := CoordsAsWritten(b);
      CoordsAsWrittenCases(a);
      CoordsAsWrittenCases(b);
      var c := ReflectAsWritten(pa, pb);
      assert Abs(c.x) <= 3 * TwoTo32 && Abs(c.y) <= 3 * TwoTo32;
      Ok(ValueAtAsWritten(c))
  }

  /** Below WrapStart, the written `grambulate` returns the exact result
      reduced modulo 2^64; in particular it is right whenever the exact
      result fits in 64 bits. */
  lemma GrambulateAsWrittenReduces(a: nat, b: nat)
    requires 1 <= a < WrapStart && 1 <= b < WrapStart
    ensures GrambulateAsWritten(a, b) == Ok(AsU64(Grambulate(a, b).value))
    ensures Grambulate(a, b).value < TwoTo64 ==> GrambulateAsWritten(a, b) == Grambulate(a, b)
  {
    hide CoordsAsWritten, CoordsOf, ValueAtAsWritten, ReflectAsWritten, ValueAt, NumberRing, AsI64, AsU64;
    CoordsAsWrittenCases(a);
    CoordsAsWrittenCases(b);
  }

  /** u64::MAX ◊ u64::MAX is 2 as written, not u64::MAX: `get_coords`
      places u64::MAX at (1, 0), the cell of 2. The exact operation keeps
      every value idempotent. */
  lemma GrambulateAsWrittenSelfFails()
    ensures GrambulateAsWritten(TwoTo64 - 1, TwoTo64 - 1) == Ok(2)
    ensures Grambulate(TwoTo64 - 1, TwoTo64 - 1) == Ok(TwoTo64 - 1)
  {
    hide CoordsAsWritten, ValueAtAsWritten, ReflectAsWritten, ValueAt, CoordsOf, Grambulate, NumberRing, RingBase;
    CoordsAsWrittenCases(TwoTo64 - 1);
    CoordsOfAt(2, 1, 1);
    GrambulateSelf(TwoTo64 - 1);
  }

  /** u64::MAX ◊ 2^62 is 0 as written, not a positive value: the misplaced
      u64::MAX sends the reflected point to the cell of 2^64, whose value
      the cast truncates to 0. The exact result is 1. */
  lemma GrambulateAsWrittenZero()
    ensures GrambulateAsWritten(TwoTo64 - 1, TwoTo62) == Ok(0)
    ensures Grambulate(TwoTo64 - 1, TwoTo62) == Ok(1)
  {
    hide CoordsAsWritten, ValueAtAsWritten, ReflectAsWritten, ValueAt, CoordsOf, Grambulate, NumberRing, RingBase;
    CoordsAsWrittenCases(TwoTo64 - 1);
    CoordsAsWrittenCases(TwoTo62);
    CoordsOfAt(TwoTo62, 0x4000_0000, 0xFFFF_FFFF);
    CoordsOfAt(TwoTo64, TwoTo31, 0x1_FFFF_FFFF);
    CoordsOfAt(TwoTo64 - 1, TwoTo31, 0x1_FFFF_FFFE);
    GrambulateCharacterised(TwoTo64 - 1, TwoTo62, 1);
  }

  /** Two inputs near 2^60.8 whose exact result, at the TopRight corner of
      ring 2^31 + 1, exceeds u64::MAX: as written the value silently keeps
      only its low 64 bits. */
  lemma GrambulateAsWrittenTruncates()
    ensures GrambulateAsWritten(2049638233752702523, 2049638230889390991) == Ok(12884901891)
    ensures Grambulate(2049638233752702523, 2049638230889390991) == Ok(18446744086594453507)
  {
    hide GrambulateAsWritten, Grambulate, CoordsOf, ValueAt, NumberRing, RingBase;
    CoordsOfAt(2049638233752702523, 715827883, 4294967298);
    CoordsOfAt(2049638230889390991, 715827883, 1431655766);
    CoordsOfAt(18446744086594453507, 2147483649, 4294967298);
    GrambulateCharacterised(2049638233752702523, 2049638230889390991, 18446744086594453507);
    GrambulateAsWrittenReduces(2049638233752702523, 2049638230889390991);
  }
}
