# grambulate, modelled in Dafny

The `grambulate` crate numbers the lattice points of the plane along an
anticlockwise square spiral. The value 1 sits at the origin, 2 sits at (1, 0),
3 at (1, 1), 4 at (0, 1), and so on. Ring r ≥ 1 of the spiral holds the
values (2r−1)²+1 .. (2r+1)².

On top of this numbering the crate defines grambulation, a ◊ b. It finds the
points a′ and b′ of the two values and applies the vector from a′ to b′ once
more, starting at b′. The result is the value stored at that point. A zero
input is an error.

The model follows `src/lib.rs` function by function. Each module is one
component of that file.

- `Ring` (ring.dfy) covers `ceil_sqrt` and `get_number_ring`.
  - The `integer_sqrt` routine is replaced by `FloorSqrt`, whose contract is
    the floor-root bracket.
  - `RingBase(r)` = (2r−1)² is where ring r starts.
- `Diagonals` (diagonal.dfy) covers:
  - the `Coordinate`, `GridValue`, `Diagonal` and `GeneratorAttributes`
    records;
  - the fixed attribute table (`get_diagonal_properties`);
  - the corner generator `get_diagonal_value`;
  - the sector classifier `get_diagonal_ahead`.
- `Mapping` (mapping.dfy) covers `get_coords` and `get_value_at_coords`.
  - `get_coords` collects the candidate corners, picks the nearest one, and
    walks back from it.
  - The model proves that the two functions are mutually inverse bijections
    between the positive integers and the plane.
  - `EdgePoint(r, k)`, the k-th cell of ring r, is the reference both of them
    are proved against.
- `Spiral` (walk.dfy) is an independent description of the spiral: a unit
  step per value, turning at every corner. It is proved to visit exactly the
  points `get_coords` computes.
- `Grambulation` (grambulate.dfy) covers `grambulate`. It includes its
  characterisation, a ◊ a = a, (a ◊ b) ◊ b = a, and every result listed in
  the crate's documentation and its test files.
- `Wrapping` (wrapping.dfy) is the crate's 64-bit arithmetic as written, for a
  release build: every `as` cast keeps the low bits, and arithmetic overflow
  wraps around.
  - It proves that `get_coords` agrees with the exact mapping for every target
    below `WrapStart` = 2^64 − 2^32 + 2. From there up to u64::MAX it returns
    the point (2^64 − target, 0).
  - For inputs below `WrapStart`, `grambulate` returns the exact result
    reduced modulo 2^64.
  - The inputs where the two differ are listed under "## Findings".

The other modules use exact integers: they model the operation that the
crate's documentation describes ("the spiral is not limited to any specific
size").

The attribute table is a `HashMap`, whose iteration order is unspecified.
`get_coords` is therefore modelled as `Mapping.CoordsIn(target, order)` for an
arbitrary order in which all four diagonals occur. `Mapping.CoordsOf` is the
same function with the diagonals in declaration order. `get_coords` also
iterates the map of candidates in its own unspecified order. Filtering an
arbitrary order yields every possible candidate order, so the one `order`
parameter covers both loops.

## Model

| member | source | states |
|---|---|---|
| Ring.FloorSqrt | src/lib.rs:79 | the integer square root the crate takes from the `integer_sqrt` library: s² ≤ m < (s+1)² |
| Ring.CeilSqrt | src/lib.rs:75-81 | for n ≥ 1 the result r is ≥ 1 and (r−1)² < n ≤ r² |
| Ring.CeilSqrtLeast | src/lib.rs:75-81 | no smaller root reaches n: every k with k² ≥ n is at least `ceil_sqrt(n)` |
| Ring.CeilSqrtUnique | src/lib.rs:75-81 | the bracket (r−1)² < n ≤ r² determines `ceil_sqrt(n)` |
| Ring.CeilSqrtExamples | src/lib.rs:265-277 | the unit-test values, including 2147483648 at 2^62 and 2147483649 at 2^62+1 |
| Ring.RingBaseSquare | src/lib.rs:83-85 | the cells of rings 0 .. r−1 fill a (2r−1) × (2r−1) square |
| Ring.NumberRing | src/lib.rs:83-85 | ring 0 exactly for target 1; otherwise ring r ≥ 1 with (2r−1)² < target ≤ (2r+1)² |
| Ring.RingBracketsOrdered | src/lib.rs:83-85 | the value ranges of distinct rings do not overlap |
| Ring.NumberRingUnique | src/lib.rs:83-85 | any r whose range holds the target is `get_number_ring(target)` |
| Ring.NumberRingExamples | src/lib.rs:281-296 | the unit-test values 1→0, 2→1, 9→1, 10→2, 25→2, 26→3, 289→8 |
| Diagonals.AllDiagonalsComplete | src/lib.rs:17-23 | the declaration-order list names all four diagonals |
| Diagonals.DirectionsIdentifyDiagonal | src/lib.rs:154-189 | every table direction is a diagonal unit step, and distinct diagonals have distinct directions |
| Diagonals.CornerFormula | src/lib.rs:63-73 | 4r² − r(5 − base) + 1 is the start of ring r plus 2r, 4r, 6r or 8r for TopRight, TopLeft, BottomLeft or BottomRight, and 1 at r = 0 |
| Diagonals.DiagonalValue | src/lib.rs:63-73 | the corner lies on ring r, in its diagonal's quadrant; its value is never negative (at least 1); every diagonal gives (0,0) holding 1 at r = 0 |
| Diagonals.CornerCoord | src/lib.rs:66-67 | the corner coordinate is (x_incr·r, y_incr·r), written out per diagonal |
| Diagonals.CornerValuesOrdered | src/lib.rs:63-73 | on a ring the corners come 2r apart in the order TR < TL < BL < BR, and BR is (2r+1)² |
| Diagonals.CornerValuesDistinct | src/lib.rs:63-73 | on a ring r ≥ 1 distinct diagonals have distinct corner values |
| Diagonals.DiagonalValueExamples | src/lib.rs:299-404 | the unit-test corners for r = 0, 1, 2: TL 5/17, TR 3/13, BL 7/21, BR 9/25 |
| Diagonals.DiagonalAhead | src/lib.rs:32-61 | total on every non-origin point, so neither `unreachable!()` is reachable; each diagonal is returned exactly on its half-open sector, and ties \|x\| = \|y\| are resolved by quadrant |
| Diagonals.CornerClassifiesAsItsDiagonal | src/lib.rs:32-61 | the corner of each diagonal at ring r ≥ 1 classifies as that diagonal |
| Diagonals.DiagonalAheadExamples | src/lib.rs:422-517 | the unit-test classifications |
| Mapping.ValueAt | src/lib.rs:129-152 | the origin and only the origin maps to 1; every other point maps into its ring's range, so the corner value always covers the subtracted distance |
| Mapping.EdgePoint | src/lib.rs:116-126 | the k-th cell of ring r lies on ring r |
| Mapping.ValueAtEdgePoint | src/lib.rs:129-152 | the k-th cell of ring r holds (2r−1)² + k |
| Mapping.EdgePointOfValueAt | src/lib.rs:129-152 | every non-origin point is the cell its value names on its ring |
| Mapping.Candidates | src/lib.rs:93-100 | a diagonal is a candidate exactly when its corner value is at least the target, with difference corner − target |
| Mapping.Nearest | src/lib.rs:102-108 | the selection loop returns a candidate of least difference, and is empty only for an empty candidate list with no start value |
| Mapping.CandidatesIncludeBottomRight | src/lib.rs:93-103 | the BottomRight corner (2r+1)² is always a candidate, so the placeholder is never the answer |
| Mapping.NearestAtCentre | src/lib.rs:102-111 | on ring 0 every candidate is (0,0) holding 1, so the tie is harmless |
| Mapping.NearestOnRing | src/lib.rs:102-111 | on a ring r ≥ 1 the selection returns the corner ahead of the target, which is unique |
| Mapping.WalkBackReachesEdgePoint | src/lib.rs:113-126 | walking back from the corner ahead along its edge reaches the target's cell |
| Mapping.ChosenCornerIsAhead | src/lib.rs:87-111 | whatever the table order, the chosen corner is the corner ahead, or the origin for target 1 |
| Mapping.CoordsIn | src/lib.rs:87-127 | for any table order, the result lies on ring `get_number_ring(target)` at the target's cell: (0,0) for 1, `EdgePoint(r, target − (2r−1)²)` otherwise |
| Mapping.CoordsOf | src/lib.rs:87-127 | the same, for the table in declaration order |
| Mapping.CoordsOrderIrrelevant | src/lib.rs:87-127 | the unspecified iteration order of the table never changes the result |
| Mapping.ValueAtCoordsIn | src/lib.rs:87-152 | `get_value_at_coords(get_coords(v)) = v` for every v ≥ 1 and every table order |
| Mapping.ValueAtCoordsOf | src/lib.rs:87-152 | the same round trip for the declaration-order table |
| Mapping.CoordsOfValueAt | src/lib.rs:87-152 | `get_coords(get_value_at_coords(p)) = p` for every point, so every point is reached |
| Mapping.CoordsOfEdgePoint | src/lib.rs:87-127 | the value (2r−1)² + k is found at the k-th cell of ring r |
| Mapping.CoordsOfAt | src/lib.rs:87-152 | the same, with the ring start in closed form, in both directions |
| Mapping.CoordsOfInjective | src/lib.rs:87-127 | distinct values never share a point |
| Mapping.ValueAtInjective | src/lib.rs:129-152 | distinct points never hold the same value |
| Mapping.CoordsOfExamples | src/lib.rs:407-419 | the unit-test points 1→(0,0), 2→(1,0), 3→(1,1), 7→(−1,−1), 9→(1,−1), 25→(2,−2), 49→(3,−3), 281→(0,−8), 100→(−4,5) |
| Mapping.ValueAtExamples | src/lib.rs:520-552 | the unit-test values (0,0)→1, (1,0)→2, (1,1)→3, (0,1)→4, (1,−1)→9, (2,−1)→10, (2,0)→11 |
| Spiral.Step | src/lib.rs:195-205 | consecutive cells of the spiral drawn in the documentation are unit neighbours |
| Spiral.StepAlongRing | src/lib.rs:116-126 | inside a ring, one step leads from the k-th cell to the (k+1)-th |
| Spiral.StepLeavesRing | src/lib.rs:116-126 | one step leads from a ring's last cell, its BottomRight corner, to the next ring's first cell |
| Spiral.StepFollowsSpiral | src/lib.rs:87-127 | value n+1 sits one step from value n |
| Spiral.CoordsOfIsWalk | src/lib.rs:87-127 | `get_coords(n)` is the cell reached after n − 1 spiral steps from the centre |
| Grambulation.Reflect | src/lib.rs:252-256 | c′ is a′ reflected through b′: a′ + c′ = 2b′ |
| Grambulation.Grambulate | src/lib.rs:242-258 | an error exactly when an input is 0; otherwise a positive value whose point is a′ reflected through b′ |
| Grambulation.GrambulateCharacterised | src/lib.rs:242-258 | for positive inputs, v is a ◊ b exactly when v sits at 2b′ − a′ |
| Grambulation.GrambulateSelf | src/lib.rs:242-258 | a ◊ a = a |
| Grambulation.GrambulateInvolution | src/lib.rs:242-258 | (a ◊ b) ◊ b = a |
| Grambulation.GrambulateNotCommutative | src/lib.rs:229-237 | a ◊ b and b ◊ a differ for some inputs (7 ◊ 21 = 43, 21 ◊ 7 = 1) |
| Grambulation.GrambulateDocExample1 | src/lib.rs:231 | 1 ◊ 2 = 11 |
| Grambulation.GrambulateDocExample2 | src/lib.rs:232 | 5 ◊ 15 = 33 |
| Grambulation.GrambulateDocExample3 | src/lib.rs:233 | 7 ◊ 21 = 43 |
| Grambulation.GrambulateDocExample4 | src/lib.rs:234 | 21 ◊ 7 = 1 |
| Grambulation.GrambulateTestCase1 | tests/test_grambulate.rs:6 | 1 ◊ 9 = 25 |
| Grambulation.GrambulateTestCase2 | tests/test_grambulate.rs:7 | 1 ◊ 7 = 21 |
| Grambulation.GrambulateTestCase3 | tests/test_grambulate.rs:8 | 7 ◊ 1 = 3 |
| Grambulation.GrambulateTestCase4 | tests/test_grambulate.rs:9 | 9 ◊ 5 = 37 |
| Grambulation.GrambulateTestCase5 | tests/test_grambulate.rs:10 | 114 ◊ 116 = 118 |
| Grambulation.GrambulateTestCase6 | tests/test_grambulate.rs:12 | 120842908 ◊ 765255103 = 2562110898 |
| Grambulation.GrambulateTestCase7 | tests/test_grambulate.rs:13 | 283311628 ◊ 982590465 = 3030985010 |
| Grambulation.GrambulateTestCase8 | tests/test_grambulate.rs:14 | 841055110 ◊ 210288268 = 1373718672 |
| Grambulation.GrambulateTestCase9 | tests/test_grambulate.rs:15 | 435594887 ◊ 106289809 = 1721403763 |
| Grambulation.GrambulateTestCase10 | tests/test_grambulate.rs:16 | 239517836 ◊ 742207561 = 4894885652 |
| Grambulation.GrambulateTestCase11 | tests/test_grambulate.rs:17 | 128398453 ◊ 764847139 = 2794172097 |
| Grambulation.GrambulateTestCase12 | tests/test_grambulate.rs:18 | 751271524 ◊ 945230955 = 4979352842 |
| Grambulation.GrambulateTestCase13 | tests/test_grambulate.rs:21-24 | the precision case 9223372036854775807 ◊ 9223372036854775808 = 9223372036854775809 |
| Wrapping.AsU64 | src/lib.rs:70 | `as u64` keeps the low 64 bits: the result is below 2^64 and equals any value already in range |
| Wrapping.AsI64 | src/lib.rs:117-120 | `as i64` keeps the low 64 bits in two's complement: the result lies in [−2^63, 2^63) and equals any value already in range |
| Wrapping.CornerAsWritten | src/lib.rs:63-73 | the corner value is the exact corner value modulo 2^64, because of the wrapping `ring.pow(2)` and the final cast; the corner point is exact for every i64 ring |
| Wrapping.CornerFitsBelowTopRing | src/lib.rs:63-73 | on rings below 2^31 every corner is exact |
| Wrapping.TopRingCorners | src/lib.rs:70 | on ring 2^31 the TopRight corner 2^64 − 2^32 + 1 is exact; TopLeft, BottomLeft and BottomRight keep only their low bits, 1, 2^32 + 1 and 2^33 + 1 |
| Wrapping.RingOfU64 | src/lib.rs:83-85 | every u64 target lies on a ring of at most 2^31 |
| Wrapping.PlaceholderAlwaysBeaten | src/lib.rs:102-108 | no candidate of a u64 target has difference u64::MAX, so the first candidate always replaces the placeholder |
| Wrapping.CandidatesAgreeBelowTopRing | src/lib.rs:93-100 | below ring 2^31 the candidates are those of the exact model, for every order |
| Wrapping.TopRingCandidates | src/lib.rs:93-100 | on ring 2^31 the only candidate is TopRight, and only for targets below 2^64 − 2^32 + 2 |
| Wrapping.ChosenCornerAgrees | src/lib.rs:102-111 | below 2^64 − 2^32 + 2 the corner walked back from is the one the exact model chooses |
| Wrapping.ChosenCornerLost | src/lib.rs:102-111 | from 2^64 − 2^32 + 2 on no candidate exists, and the placeholder is walked back from |
| Wrapping.WalkBackAsWritten | src/lib.rs:113-126 | with the offset cast to i64 and added in i64, the walk back is the exact walk back for corners and offsets below 2^62 |
| Wrapping.CoordsAsWrittenCases | src/lib.rs:87-127 | `get_coords` as written is the exact point for every target below 2^64 − 2^32 + 2, and (2^64 − target, 0) for every target from there to u64::MAX |
| Wrapping.ValueAtAsWritten | src/lib.rs:129-152 | the result is a u64, and on rings below 2^62 it is the exact value reduced modulo 2^64 |
| Wrapping.ValueAtAsWrittenReduces | src/lib.rs:143-150 | the truncated corner minus the i64 distance, wrapped, is the exact value modulo 2^64 |
| Wrapping.ReflectAsWritten | src/lib.rs:252-256 | for points within 2^32 of the centre the i64 reflection is the exact reflection and stays within 3 · 2^32 |
| Wrapping.GrambulateAsWritten | src/lib.rs:242-258 | an error exactly when an input is zero; otherwise a u64 value |
| Wrapping.GrambulateAsWrittenReduces | src/lib.rs:242-258 | below 2^64 − 2^32 + 2 the result is the exact a ◊ b modulo 2^64, and exactly a ◊ b when that fits in 64 bits |
| Wrapping.GrambulateAsWrittenSelfFails | src/lib.rs:242-258 | u64::MAX ◊ u64::MAX is 2 as written, while the exact operation gives u64::MAX |
| Wrapping.GrambulateAsWrittenZero | src/lib.rs:242-258 | u64::MAX ◊ 2^62 is 0 as written, while the exact operation gives 1 |
| Wrapping.GrambulateAsWrittenTruncates | src/lib.rs:223-225 | 2049638233752702523 ◊ 2049638230889390991 is 12884901891 as written, although the documentation promises success; the exact value is 18446744086594453507 |

## Left out

- Outside `Wrapping`, machine integer widths are not modelled. This covers the u64, i64, i8 and i128 types and the casts between them at src/lib.rs:66-70, 117-120, 136, 145-149 and 252-256. Every value there is an unbounded `int` or `nat`.
  - The promise that every nonzero u64 input gives the correct result holds for the exact model. It does not hold for the code as written.
  - `get_coords` goes wrong for every target from 2^64 − 2^32 + 2 to 2^64 − 1.
  - `grambulate` goes wrong whenever the exact result exceeds u64::MAX. This happens for inputs as small as about 2^60.8.
  - `Wrapping` states both facts exactly, and "## Findings" gives inputs.
- Wrapping: models a release build. There an arithmetic overflow wraps around; a debug build panics instead. The `as` casts truncate in both builds. The three inputs under "## Findings" involve only casts, so both builds give the results stated there.
- Wrapping.ValueAtAsWritten: requires coordinates other than i64::MIN, where `abs` itself overflows. The points `grambulate` passes lie within 3 · 2^32 of the centre.
- Wrapping.CoordsAsWritten: iterates the attribute table in declaration order only. Below ring 2^31 it agrees with the exact `Mapping.CoordsIn` for every order. On ring 2^31 at most one candidate remains, so the order cannot matter there either.
- Ring.CeilSqrt: requires n ≥ 1. `ceil_sqrt` computes `n - 1` on an unsigned n, which underflows at 0, and no caller passes 0.
- Ring.FloorSqrt: stands in for the `integer_sqrt` crate, which is not part of this model. Only its contract, the floor-root bracket, is relied on.
- Diagonals.DiagonalValue: takes the diagonal instead of its three attributes. The attributes are looked up in the fixed table `Attributes`, which replaces the `HashMap` of `get_diagonal_properties`.
- Mapping.Nearest: the placeholder of `get_coords` (TopLeft, u64::MAX, default grid value) is modelled as "no candidate yet", which any candidate replaces.
  - In the crate a candidate with difference u64::MAX would not replace it. `Wrapping.PlaceholderAlwaysBeaten` shows that no candidate of a u64 target has that difference.
  - Whenever no candidate was found, the placeholder's coordinate arithmetic is kept literally (`Mapping.Placeholder`).
  - `Mapping.CandidatesIncludeBottomRight` shows that this never happens in the exact model. It is a fact about the model only.
  - In the crate's 64-bit code it does happen, for every target from 2^64 − 2^32 + 2 on (`Wrapping.ChosenCornerLost`).
- Diagonals.DiagonalAhead: requires p ≠ origin. At the origin `get_diagonal_ahead` reaches `unreachable!()` (src/lib.rs:44) and panics. Its only caller, `get_value_at_coords`, returns 1 for the origin before calling it (src/lib.rs:133-135).
- The string payload of the error (src/lib.rs:244) is replaced by the single error case `ZeroInput`.
- The `Debug`, `Default` and `Hash` derivations and the test scaffolding are left out. The unit and integration tests appear only as the example lemmas above.

## Findings

All three rows were derived from the source text. Nothing was executed.

| source | as written | input that shows it | evidently intended | confidence | as-written member | corrected member |
|---|---|---|---|---|---|---|
| src/lib.rs:70, 94-103 | on ring 2^31 the `as u64` cast truncates three corner values. From 2^64 − 2^32 + 2 on no corner reaches the target, and `get_coords` walks back from the placeholder to (2^64 − target, 0) | `grambulate(u64::MAX, u64::MAX)` = Ok(2), because u64::MAX is placed at (1, 0) | u64::MAX sits at (−2147483646, 2147483648), so a ◊ a = a | high; not executed | Wrapping.GrambulateAsWrittenSelfFails | Grambulation.GrambulateSelf |
| src/lib.rs:70, 143-150, 225 | the result's corner value is cast to u64, so a result above u64::MAX keeps only its low 64 bits, yet is returned as Ok | `grambulate(2049638233752702523, 2049638230889390991)` = Ok(12884901891) | the value at the reflected point, 18446744086594453507, which does not fit in u64; an error would be the honest 64-bit answer | high; not executed | Wrapping.GrambulateAsWrittenTruncates | Grambulation.Grambulate |
| src/lib.rs:70, 94-103, 143-150 | both effects together yield 0, which is not a value of the spiral | `grambulate(u64::MAX, 2^62)` = Ok(0) | 1, the value at the reflected point (0, 0); every result is at least 1 | high; not executed | Wrapping.GrambulateAsWrittenZero | Grambulation.Grambulate |
