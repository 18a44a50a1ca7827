/** Grambulation, a ◊ b: find the points a' and b' of a and b on the
    spiral, reflect a' through b' (apply the vector from a' to b' once more,
    starting at b'), and read off the value stored at the resulting point.
 */
module Grambulation {
  import opened Ring
  import opened Diagonals
  import opened Mapping

  /** The single error of the operation: an input was zero. */
  datatype Error = ZeroInput

  datatype Result<T> = Ok(value: T) | Err(error: Error)

  /** The point c' = b' + (b' - a'), computed as `grambulate` does: the
      difference vector first, then added to b'. */
  function Reflect(a: Coord, b: Coord): (c: Coord)
    ensures a.x + c.x == 2 * b.x && a.y + c.y == 2 * b.y
  {
    var diff := (b.x - a.x, b.y - a.y);
    Coord(b.x + diff.0, b.y + diff.1)
  }

  /** a ◊ b (`grambulate` in the crate): an error exactly when an input is
      zero, and otherwise the positive value whose point is a' reflected
      through b'. */
  function Grambulate(a: nat, b: nat): (r: Result<nat>)
    ensures r.Err? <==> a == 0 || b == 0
    ensures r.Ok? ==> r.value >= 1 && CoordsOf(r.value) == Reflect(CoordsOf(a), CoordsOf(b))
  {
    if a == 0 || b == 0 then Err(ZeroInput)
    else
      var c := Reflect(CoordsOf(a), CoordsOf(b));
      CoordsOfValueAt(c);
      Ok(ValueAt(c))
  }

  /** The result is characterised by its point: for positive inputs, v is
      a ◊ b exactly when v sits at a' reflected through b'. */
  lemma GrambulateCharacterised(a: nat, b: nat, v: nat)
    requires a >= 1 && b >= 1 && v >= 1
    ensures Grambulate(a, b) == Ok(v) <==> CoordsOf(v) == Reflect(CoordsOf(a), CoordsOf(b))
  {
    hide *;
    var r := Grambulate(a, b);
    if CoordsOf(v) == Reflect(CoordsOf(a), CoordsOf(b)) {
      CoordsOfInjective(r.value, v);
    }
  }

  /** Every positive value is idempotent: a ◊ a = a. */
  lemma GrambulateSelf(a: nat)
    requires a >= 1
    ensures Grambulate(a, a) == Ok(a)
  {
    hide *;
    var p := CoordsOf(a);
    assert Reflect(p, p) == p;
    GrambulateCharacterised(a, a, a);
  }

  /** Reflecting twice through the same point returns to the start:
      (a ◊ b) ◊ b = a. */
  lemma GrambulateInvolution(a: nat, b: nat)
    requires a >= 1 && b >= 1
    ensures Grambulate(a, b).Ok?
    ensures Grambulate(Grambulate(a, b).value, b) == Ok(a)
  {
    hide *;
    var c := Grambulate(a, b).value;
    var pa, pb := CoordsOf(a), CoordsOf(b);
    assert Reflect(Reflect(pa, pb), pb) == pa;
    GrambulateCharacterised(c, b, a);
  }

  /** 1 ◊ 2 = 11, from the crate's documentation. */
  lemma GrambulateDocExample1()
    ensures Grambulate(1, 2) == Ok(11)
  {
    hide Grambulate, CoordsOf, ValueAt, NumberRing, RingBase;
    CoordsOfAt(2, 1, 1);
    CoordsOfAt(11, 2, 2);
    GrambulateCharacterised(1, 2, 11);
  }

  /** The worked example of the crate's documentation: 5 ◊ 15 = 33. */
  lemma GrambulateDocExample2()
    ensures Grambulate(5, 15) == Ok(33)
  {
    hide Grambulate, CoordsOf, ValueAt, NumberRing, RingBase;
    CoordsOfAt(5, 1, 4);
    CoordsOfAt(15, 2, 6);
    CoordsOfAt(33, 3, 8);
    GrambulateCharacterised(5, 15, 33);
  }

  /** 7 ◊ 21 = 43, from the crate's documentation; compare GrambulateDocExample4. */
  lemma GrambulateDocExample3()
    ensures Grambulate(7, 21) == Ok(43)
  {
    hide Grambulate, CoordsOf, ValueAt, NumberRing, RingBase;
    CoordsOfAt(7, 1, 6);
    CoordsOfAt(21, 2, 12);
    CoordsOfAt(43, 3, 18);
    GrambulateCharacterised(7, 21, 43);
  }

  /** 21 ◊ 7 = 1, from the crate's documentation: with GrambulateDocExample3 it shows the operation does not commute. */
  lemma GrambulateDocExample4()
    ensures Grambulate(21, 7) == Ok(1)
  {
    hide Grambulate, CoordsOf, ValueAt, NumberRing, RingBase;
    CoordsOfAt(7, 1, 6);
    CoordsOfAt(21, 2, 12);
    GrambulateCharacterised(21, 7, 1);
  }

  /** Case 1 of the crate's integration test: 1 ◊ 9 = 25. */
  lemma GrambulateTestCase1()
    ensures Grambulate(1, 9) == Ok(25)
  {
    hide Grambulate, CoordsOf, ValueAt, NumberRing, RingBase;
    CoordsOfAt(9, 1, 8);
    CoordsOfAt(25, 2, 16);
    GrambulateCharacterised(1, 9, 25);
  }

  /** Case 2 of the crate's integration test: 1 ◊ 7 = 21. */
  lemma GrambulateTestCase2()
    ensures Grambulate(1, 7) == Ok(21)
  {
    hide Grambulate, CoordsOf, ValueAt, NumberRing, RingBase;
    CoordsOfAt(7, 1, 6);
    CoordsOfAt(21, 2, 12);
    GrambulateCharacterised(1, 7, 21);
  }

  /** Case 3 of the crate's integration test: 7 ◊ 1 = 3. */
  lemma GrambulateTestCase3()
    ensures Grambulate(7, 1) == Ok(3)
  {
    hide Grambulate, CoordsOf, ValueAt, NumberRing, RingBase;
    CoordsOfAt(3, 1, 2);
    CoordsOfAt(7, 1, 6);
    GrambulateCharacterised(7, 1, 3);
  }

  /** Case 4 of the crate's integration test: 9 ◊ 5 = 37. */
  lemma GrambulateTestCase4()
    ensures Grambulate(9, 5) == Ok(37)
  {
    hide Grambulate, CoordsOf, ValueAt, NumberRing, RingBase;
    CoordsOfAt(5, 1, 4);
    CoordsOfAt(9, 1, 8);
    CoordsOfAt(37, 3, 12);
    GrambulateCharacterised(9, 5, 37);
  }

  /** Case 5 of the crate's integration test: 114 ◊ 116 = 118. */
  lemma GrambulateTestCase5()
    ensures Grambulate(114, 116) == Ok(118)
  {
    hide Grambulate, CoordsOf, ValueAt, NumberRing, RingBase;
    CoordsOfAt(114, 5, 33);
    CoordsOfAt(116, 5, 35);
    CoordsOfAt(118, 5, 37);
    GrambulateCharacterised(114, 116, 118);
  }

  /** Case 6 of the crate's integration test: 120842908 ◊ 765255103 = 2562110898. */
  lemma GrambulateTestCase6()
    ensures Grambulate(120842908, 765255103) == Ok(2562110898)
  {
    hide Grambulate, CoordsOf, ValueAt, NumberRing, RingBase;
    CoordsOfAt(120842908, 5496, 40827);
    CoordsOfAt(765255103, 13832, 13534);
    CoordsOfAt(2562110898, 25309, 30209);
    GrambulateCharacterised(120842908, 765255103, 2562110898);
  }

  /** Case 7 of the crate's integration test: 283311628 ◊ 982590465 = 3030985010. */
  lemma GrambulateTestCase7()
    ensures Grambulate(283311628, 982590465) == Ok(3030985010)
  {
    hide Grambulate, CoordsOf, ValueAt, NumberRing, RingBase;
    CoordsOfAt(283311628, 8416, 29067);
    CoordsOfAt(982590465, 15673, 81440);
    CoordsOfAt(3030985010, 27527, 152201);
    GrambulateCharacterised(283311628, 982590465, 3030985010);
  }

  /** Case 8 of the crate's integration test: 841055110 ◊ 210288268 = 1373718672. */
  lemma GrambulateTestCase8()
    ensures Grambulate(841055110, 210288268) == Ok(1373718672)
  {
    hide Grambulate, CoordsOf, ValueAt, NumberRing, RingBase;
    CoordsOfAt(210288268, 7251, 9267);
    CoordsOfAt(841055110, 14500, 113109);
    CoordsOfAt(1373718672, 18532, 52703);
    GrambulateCharacterised(841055110, 210288268, 1373718672);
  }

  /** Case 9 of the crate's integration test: 435594887 ◊ 106289809 = 1721403763. */
  lemma GrambulateTestCase9()
    ensures Grambulate(435594887, 106289809) == Ok(1721403763)
  {
    hide Grambulate, CoordsOf, ValueAt, NumberRing, RingBase;
    CoordsOfAt(106289809, 5155, 14328);
    CoordsOfAt(435594887, 10435, 79726);
    CoordsOfAt(1721403763, 20745, 66642);
    GrambulateCharacterised(435594887, 106289809, 1721403763);
  }

  /** Case 10 of the crate's integration test: 239517836 ◊ 742207561 = 4894885652. */
  lemma GrambulateTestCase10()
    ensures Grambulate(239517836, 742207561) == Ok(4894885652)
  {
    hide Grambulate, CoordsOf, ValueAt, NumberRing, RingBase;
    CoordsOfAt(239517836, 7738, 42211);
    CoordsOfAt(742207561, 13622, 26512);
    CoordsOfAt(4894885652, 34982, 64283);
    GrambulateCharacterised(239517836, 742207561, 4894885652);
  }

  /** Case 11 of the crate's integration test: 128398453 ◊ 764847139 = 2794172097. */
  lemma GrambulateTestCase11()
    ensures Grambulate(128398453, 764847139) == Ok(2794172097)
  {
    hide Grambulate, CoordsOf, ValueAt, NumberRing, RingBase;
    CoordsOfAt(128398453, 5666, 6892);
    CoordsOfAt(764847139, 13828, 48114);
    CoordsOfAt(2794172097, 26430, 98216);
    GrambulateCharacterised(128398453, 764847139, 2794172097);
  }

  /** Case 12 of the crate's integration test: 751271524 ◊ 945230955 = 4979352842. */
  lemma GrambulateTestCase12()
    ensures Grambulate(751271524, 945230955) == Ok(4979352842)
  {
    hide Grambulate, CoordsOf, ValueAt, NumberRing, RingBase;
    CoordsOfAt(751271524, 13705, 18243);
    CoordsOfAt(945230955, 15372, 98906);
    CoordsOfAt(4979352842, 35282, 215873);
    GrambulateCharacterised(751271524, 945230955, 4979352842);
  }

  /** The precision case of the crate's integration test, around 2^63. */
  lemma GrambulateTestCase13()
    ensures Grambulate(9223372036854775807, 9223372036854775808) == Ok(9223372036854775809)
  {
    hide Grambulate, CoordsOf, ValueAt, NumberRing, RingBase;
    CoordsOfAt(9223372036854775807, 1518500250, 5928526806);
    CoordsOfAt(9223372036854775808, 1518500250, 5928526807);
    CoordsOfAt(9223372036854775809, 1518500250, 5928526808);
    GrambulateCharacterised(9223372036854775807, 9223372036854775808, 9223372036854775809);
  }

  /** Grambulation does not commute: 7 ◊ 21 = 43 but 21 ◊ 7 = 1. */
  lemma GrambulateNotCommutative()
    ensures exists a: nat, b: nat :: Grambulate(a, b) != Grambulate(b, a)
  {
    hide *;
    GrambulateDocExample3();
    GrambulateDocExample4();
    assert Grambulate(7, 21) != Grambulate(21, 7);
  }
}
