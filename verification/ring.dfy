/** Ring arithmetic of the number spiral: integer square roots and the index
    of the square layer ("ring") that holds a given spiral value.

    Ring r >= 1 holds the values (2r-1)^2 + 1 .. (2r+1)^2; ring 0 holds only 1.
 */
module Ring {

  /** a <= b implies a*a <= b*b on naturals. */
  lemma {:induction false} SquareMonotone(a: nat, b: nat)
    requires a <= b
    ensures a * a <= b * b
    decreases b - a
  {
    if a < b {
      SquareMonotone(a, b - 1);
      assert b * b == (b - 1) * (b - 1) + 2 * b - 1;
    }
  }

  /** The converse of SquareMonotone: squares are strictly ordered like their roots. */
  lemma SquareLessImpliesLess(a: nat, b: nat)
    requires a * a < b * b
    ensures a < b
  {
    if b <= a {
      SquareMonotone(b, a);
    }
  }

  /** Doubling a root of m / 4 brackets the root of m between 2h and 2h + 2. */
  lemma QuarterBracket(m: nat, h: nat)
    requires h * h <= m / 4 < (h + 1) * (h + 1)
    ensures (2 * h) * (2 * h) <= m < (2 * h + 2) * (2 * h + 2)
  {
    var q := m / 4;
    assert 4 * q <= m < 4 * q + 4;
    assert (2 * h) * (2 * h) == 4 * (h * h);
    assert (2 * h + 2) * (2 * h + 2) == 4 * ((h + 1) * (h + 1));
    assert q + 1 <= (h + 1) * (h + 1);
  }

  /** The largest s with s*s <= m. It stands for the `integer_sqrt` library routine,
      computed digit by digit in base 4 so that its depth is logarithmic in m. */
  function FloorSqrt(m: nat): (s: nat)
    ensures s * s <= m < (s + 1) * (s + 1)
    decreases m
  {
    if m < 4 then
      (if m == 0 then 0 else 1)
    else
      var h := FloorSqrt(m / 4);
      var s := 2 * h;
      QuarterBracket(m, h);
      if (s + 1) * (s + 1) <= m then s + 1 else s
  }

  /** Any root bracketed like FloorSqrt's result is FloorSqrt's result. */
  lemma FloorSqrtUnique(m: nat, s: nat)
    requires s * s <= m < (s + 1) * (s + 1)
    ensures FloorSqrt(m) == s
  {
    var t := FloorSqrt(m);
    if t < s {
      SquareMonotone(t + 1, s);
    } else if s < t {
      SquareMonotone(s + 1, t);
    }
  }

  /** The least r with r*r >= n (`ceil_sqrt` in the crate). `ceil_sqrt` subtracts 1
      from an unsigned n, so it is only defined for n >= 1. */
  function CeilSqrt(n: nat): (r: nat)
    requires n >= 1
    ensures r >= 1
    ensures (r - 1) * (r - 1) < n <= r * r
  {
    if n == 1 then 1 else FloorSqrt(n - 1) + 1
  }

  /** The bracket (r-1)^2 < n <= r^2 determines CeilSqrt: it is the least r with r*r >= n. */
  lemma CeilSqrtUnique(n: nat, r: nat)
    requires n >= 1 && r >= 1
    requires (r - 1) * (r - 1) < n <= r * r
    ensures CeilSqrt(n) == r
  {
    var c := CeilSqrt(n);
    if c < r {
      SquareMonotone(c, r - 1);
    } else if r < c {
      SquareMonotone(r, c - 1);
    }
  }

  /** CeilSqrt(n) is the least root whose square reaches n. */
  lemma CeilSqrtLeast(n: nat, k: nat)
    requires n >= 1
    requires k * k >= n
    ensures CeilSqrt(n) <= k
  {
    var c := CeilSqrt(n);
    if k < c {
      SquareMonotone(k, c - 1);
    }
  }

  /** The last value before ring r >= 1 starts, (2r-1)^2: ring r - 1 ends there,
      and each ring r >= 1 adds 8r cells. Defined ring by ring so that it stays
      linear for the solver; RingBaseSquare gives the closed form. */
  function RingBase(ring: nat): (b: nat)
    ensures b >= 1
  {
    if ring == 0 then 1 else RingBase(ring - 1) + 8 * (ring - 1)
  }

  /** The closed form of RingBase: the (2r-1) x (2r-1) square that rings 0 .. r-1 fill. */
  lemma {:induction false} RingBaseSquare(ring: nat)
    ensures RingBase(ring) == (2 * ring - 1) * (2 * ring - 1)
  {
    if ring > 0 {
      RingBaseSquare(ring - 1);
      assert (2 * ring - 1) * (2 * ring - 1) == (2 * ring - 3) * (2 * ring - 3) + 8 * (ring - 1);
    }
  }

  /** Ring r has 8r cells: it ends at (2r+1)^2. */
  lemma RingEnd(ring: nat)
    ensures RingBase(ring) + 8 * ring == (2 * ring + 1) * (2 * ring + 1)
  {
    RingBaseSquare(ring + 1);
  }

  /** The ring that holds spiral value `target` (`get_number_ring` in the crate):
      ring 0 is the centre cell 1, ring r >= 1 runs from (2r-1)^2 + 1 to (2r+1)^2. */
  function NumberRing(target: nat): (r: nat)
    requires target >= 1
    ensures r == 0 <==> target == 1
    ensures r >= 1 ==> RingBase(r) < target <= RingBase(r) + 8 * r
  {
    var c := CeilSqrt(target);
    var r := c / 2;
    assert r >= 1 ==> RingBase(r) < target <= RingBase(r) + 8 * r by {
      if r >= 1 {
        RingBaseSquare(r);
        RingEnd(r);
        if c == 2 * r {
          SquareMonotone(2 * r, 2 * r + 1);
        } else {
          assert c == 2 * r + 1;
          SquareMonotone(2 * r - 1, 2 * r);
        }
      }
    }
    r
  }

  /** Brackets of distinct rings do not overlap: ring q ends no later than
      ring r starts when q < r. */
  lemma {:induction false} RingBracketsOrdered(q: nat, r: nat)
    requires q < r
    ensures RingBase(q) + 8 * q <= RingBase(r)
    decreases r
  {
    if q + 1 < r {
      RingBracketsOrdered(q, r - 1);
    }
  }

  /** The ring bracket determines the ring: a value between (2r-1)^2 and (2r+1)^2
      lies on ring r. */
  lemma NumberRingUnique(target: nat, r: nat)
    requires r >= 1
    requires RingBase(r) < target <= RingBase(r) + 8 * r
    ensures NumberRing(target) == r
  {
    var q := NumberRing(target);
    if q < r {
      RingBracketsOrdered(q, r);
    } else if r < q {
      RingBracketsOrdered(r, q);
    }
  }

  /** The values listed for `ceil_sqrt` in the crate's unit tests, including the
      exact results at 2^62 and 2^62 + 1. */
  lemma CeilSqrtExamples()
    ensures CeilSqrt(1) == 1 && CeilSqrt(2) == 2 && CeilSqrt(3) == 2 && CeilSqrt(4) == 2
    ensures CeilSqrt(5) == 3 && CeilSqrt(8) == 3 && CeilSqrt(9) == 3 && CeilSqrt(10) == 4
    ensures CeilSqrt(4611686018427387904) == 2147483648
    ensures CeilSqrt(4611686018427387904 + 1) == 2147483648 + 1
  {
    CeilSqrtUnique(2, 2);
    CeilSqrtUnique(3, 2);
    CeilSqrtUnique(4, 2);
    CeilSqrtUnique(5, 3);
    CeilSqrtUnique(8, 3);
    CeilSqrtUnique(9, 3);
    CeilSqrtUnique(10, 4);
    CeilSqrtUnique(4611686018427387904, 2147483648);
    CeilSqrtUnique(4611686018427387905, 2147483649);
  }

  /** The values listed for `get_number_ring` in the crate's unit tests. */
  lemma NumberRingExamples()
    ensures NumberRing(1) == 0
    ensures NumberRing(2) == 1 && NumberRing(9) == 1
    ensures NumberRing(10) == 2 && NumberRing(25) == 2
    ensures NumberRing(26) == 3 && NumberRing(289) == 8
  {
    NumberRingUnique(2, 1);
    NumberRingUnique(9, 1);
    NumberRingUnique(10, 2);
    NumberRingUnique(25, 2);
    NumberRingUnique(26, 3);
    NumberRingUnique(289, 8);
  }
}
