// Axis-aligned boxes with integer corners.
module Geometry {
  import opened Arithmetic

  const INT_MAX: int := INT_END - 1
  const INT_MIN: int := -INT_END
  const COORD: int := 0x4000_0000

  datatype Box = Box(minX: int, minY: int, maxX: int, maxY: int)

  // Any box a 32-bit corner can express, min above max included.
  ghost predicate Fits32(b: Box) {
    && INT_MIN <= b.minX <= INT_MAX && INT_MIN <= b.minY <= INT_MAX
    && INT_MIN <= b.maxX <= INT_MAX && INT_MIN <= b.maxY <= INT_MAX
  }

  // Halfway between two corners, in 32 bits. Halves are cut towards zero.
  function Middle(lo: int, hi: int): (m: int)
    ensures INT_MIN <= lo <= hi <= INT_MAX && hi - lo <= INT_MAX ==> m == lo + (hi - lo) / 2
  {
    var d := AsInt(hi - lo);
    AsInt(lo + (if d < 0 then -((-d) / 2) else d / 2))
  }

  // That is halfway just if the distance does not need the 32nd bit.
  lemma MiddleIff(lo: int, hi: int)
    requires INT_MIN <= lo <= hi <= INT_MAX
    ensures Middle(lo, hi) == lo + (hi - lo) / 2 <==> hi - lo <= INT_MAX
  {
    if hi - lo > INT_MAX {
      assert AsInt(hi - lo) == hi - lo - WORD;
    }
  }

  // It is the lower corner itself just at a distance of one or less, or over the whole range.
  lemma MiddleStays(lo: int, hi: int)
    requires INT_MIN <= lo <= hi <= INT_MAX
    ensures Middle(lo, hi) == lo <==> hi - lo <= 1 || hi - lo == WORD - 1
  {
    if hi - lo > INT_MAX {
      assert AsInt(hi - lo) == hi - lo - WORD;
    }
  }

  // The boxes objects have: not inside out, and small enough that differences stay in 32 bits.
  predicate Proper(b: Box) {
    && -COORD < b.minX <= b.maxX < COORD
    && -COORD < b.minY <= b.maxY < COORD
  }

  // Not inside out.
  predicate Sound(b: Box) {
    b.minX <= b.maxX && b.minY <= b.maxY
  }

  // The points of a box, edges included.
  predicate In(x: int, y: int, b: Box) {
    b.minX <= x <= b.maxX && b.minY <= y <= b.maxY
  }

  predicate Intersect(a: Box, b: Box) {
    b.minX <= a.maxX && b.minY <= a.maxY && b.maxX >= a.minX && b.maxY >= a.minY
  }

  predicate Contain(a: Box, b: Box) {
    a.minX <= b.minX && a.minY <= b.minY && b.maxX <= a.maxX && b.maxY <= a.maxY
  }

  function Min(a: int, b: int): int { if b < a then b else a }

  function Max(a: int, b: int): int { if a < b then b else a }

  // The smallest box around both.
  function Extend(a: Box, b: Box): (r: Box)
    ensures Contain(r, a) && Contain(r, b)
    ensures forall c :: Contain(c, r) <==> Contain(c, a) && Contain(c, b)
  {
    Box(Min(a.minX, b.minX), Min(a.minY, b.minY), Max(a.maxX, b.maxX), Max(a.maxY, b.maxY))
  }

  function EnlargeArea(a: Box, b: Box): int {
    (Max(a.maxX, b.maxX) - Min(a.minX, b.minX)) * (Max(a.maxY, b.maxY) - Min(a.minY, b.minY))
  }

  function BoxArea(a: Box): int {
    (a.maxX - a.minX) * (a.maxY - a.minY)
  }

  function BoxMargin(a: Box): int {
    (a.maxX - a.minX) + (a.maxY - a.minY)
  }

  function IntersectArea(a: Box, b: Box): int {
    Max(0, Min(a.maxX, b.maxX) - Max(a.minX, b.minX)) * Max(0, Min(a.maxY, b.maxY) - Max(a.minY, b.minY))
  }

  // What an extension starts from: inside out, so that it contains nothing and is inside everything.
  const EMPTY_BOX: Box := Box(INT_MAX, INT_MAX, INT_MIN, INT_MIN)

  // Boxes intersect just if they have a point in common.
  lemma IntersectIff(a: Box, b: Box)
    requires Sound(a) && Sound(b)
    ensures Intersect(a, b) <==> exists x, y :: In(x, y, a) && In(x, y, b)
  {
    if Intersect(a, b) {
      assert In(Max(a.minX, b.minX), Max(a.minY, b.minY), a) && In(Max(a.minX, b.minX), Max(a.minY, b.minY), b);
    }
  }

  // A box contains another just if it has all its points.
  lemma ContainIff(a: Box, b: Box)
    requires Sound(b)
    ensures Contain(a, b) <==> forall x, y :: In(x, y, b) ==> In(x, y, a)
  {
    assert In(b.minX, b.minY, b) && In(b.maxX, b.maxY, b);
  }

  lemma ContainTransitive(a: Box, b: Box, c: Box)
    requires Contain(a, b) && Contain(b, c)
    ensures Contain(a, c)
  {
  }

  lemma ContainAntisymmetric(a: Box, b: Box)
    requires Contain(a, b) && Contain(b, a)
    ensures a == b
  {
  }

  // What misses a box misses everything inside it; what holds a box meets every proper box inside it.
  lemma PruneIsSafe(q: Box, outer: Box, inner: Box)
    requires Contain(outer, inner) && Proper(inner)
    ensures !Intersect(q, outer) ==> !Intersect(q, inner)
    ensures Contain(q, outer) ==> Intersect(q, inner)
  {
  }

  // Boxes that meet pairwise share a point, all three.
  lemma PairwiseMeet(a: Box, b: Box, c: Box) returns (x: int, y: int)
    requires Sound(a) && Sound(b) && Sound(c)
    requires Intersect(a, b) && Intersect(b, c) && Intersect(a, c)
    ensures In(x, y, a) && In(x, y, b) && In(x, y, c)
  {
    x := Max(a.minX, Max(b.minX, c.minX));
    y := Max(a.minY, Max(b.minY, c.minY));
  }

  const AREA: int := 0x4000_0000_0000_0000

  lemma ProductBelow(w: int, h: int)
    requires 0 <= w < 2 * COORD && 0 <= h < 2 * COORD
    ensures 0 <= w * h < AREA
  {
    assert 0 <= w * h;
    assert w * h <= w * (2 * COORD);
    assert w * (2 * COORD) < (2 * COORD) * (2 * COORD);
  }

  // Areas of proper boxes fit in 63 bits, even the sum of two of them.
  lemma AreasFit(a: Box, b: Box)
    requires Proper(a) && Proper(b)
    ensures 0 <= BoxArea(a) < AREA && 0 <= EnlargeArea(a, b) < AREA && 0 <= IntersectArea(a, b) < AREA
  {
    ProductBelow(a.maxX - a.minX, a.maxY - a.minY);
    ProductBelow(Max(a.maxX, b.maxX) - Min(a.minX, b.minX), Max(a.maxY, b.maxY) - Min(a.minY, b.minY));
    ProductBelow(Max(0, Min(a.maxX, b.maxX) - Max(a.minX, b.minX)), Max(0, Min(a.maxY, b.maxY) - Max(a.minY, b.minY)));
  }

  // The unit squares of a box, by their lower left corners.
  ghost function Squares(b: Box): set<(int, int)> {
    set x, y | b.minX <= x < b.maxX && b.minY <= y < b.maxY :: (x, y)
  }

  // An area is the number of unit squares; that of an extension, those of the box around both; that of an
  // intersection, those they have in common.
  lemma AreasCount(a: Box, b: Box)
    requires Sound(a) && Sound(b)
    ensures BoxArea(a) == |Squares(a)| && IntersectArea(a, b) == |Squares(a) * Squares(b)|
    ensures EnlargeArea(a, b) == |Squares(Extend(a, b))|
  {
    hide Squares;
    SquaresCount(a);
    SquaresCount(Extend(a, b));
    var c := Common(a, b);
    SquaresCommon(a, b);
    if Sound(c) { SquaresCount(c); }
  }

  function Common(a: Box, b: Box): Box {
    Box(Max(a.minX, b.minX), Max(a.minY, b.minY), Min(a.maxX, b.maxX), Min(a.maxY, b.maxY))
  }

  lemma SquaresCommon(a: Box, b: Box)
    ensures Squares(a) * Squares(b) == Squares(Common(a, b))
    ensures !Sound(Common(a, b)) ==> |Squares(Common(a, b))| == 0
  {
    if !Sound(Common(a, b)) { assert Squares(Common(a, b)) == {}; }
  }

  lemma {:induction false} SquaresCount(b: Box)
    requires Sound(b)
    ensures |Squares(b)| == BoxArea(b)
    decreases b.maxX - b.minX
  {
    if b.minX == b.maxX {
      assert Squares(b) == {};
    } else {
      var init, last := b.(maxX := b.maxX - 1), b.(minX := b.maxX - 1);
      SquaresCount(init);
      ColumnCount(last);
      assert Squares(b) == Squares(init) + Squares(last) && Squares(init) !! Squares(last);
      Distribute(b.maxX - b.minX, 1, b.maxY - b.minY);
    }
  }

  lemma {:induction false} ColumnCount(b: Box)
    requires Sound(b) && b.maxX == b.minX + 1
    ensures |Squares(b)| == b.maxY - b.minY
    decreases b.maxY - b.minY
  {
    if b.minY == b.maxY {
      assert Squares(b) == {};
    } else {
      ColumnCount(b.(maxY := b.maxY - 1));
      assert Squares(b) == Squares(b.(maxY := b.maxY - 1)) + {(b.minX, b.maxY - 1)};
    }
  }

  // A margin is the number of unit squares along two sides.
  lemma MarginCounts(b: Box)
    requires Sound(b)
    ensures BoxMargin(b) == |Squares(b.(maxY := b.minY + 1))| + |Squares(b.(maxX := b.minX + 1))|
  {
    SquaresCount(b.(maxY := b.minY + 1));
    SquaresCount(b.(maxX := b.minX + 1));
  }
}
