// The quadtree as a value: boxes divided in four, and which leaf holds which objects.
module QuadShape {
  import opened Arithmetic
  import opened Geometry
  import opened Sequences

  datatype Obj = Obj(id: int, box: Box)

  datatype Quad = Leaf(box: Box, objs: seq<Obj>) | Inner(box: Box, kids: seq<Quad>)

  // The four quadrants: upper right, upper left, lower left, lower right. They share their edges.
  function Quadrant(b: Box, i: nat): (r: Box)
    requires i < 4
    ensures Spans32(b) ==> Contain(b, r) && Spans32(r)
  {
    var cx, cy := Middle(b.minX, b.maxX), Middle(b.minY, b.maxY);
    match i
    case 0 => Box(cx, cy, b.maxX, b.maxY)
    case 1 => Box(b.minX, cy, cx, b.maxY)
    case 2 => Box(b.minX, b.minY, cx, cy)
    case 3 => Box(cx, b.minY, b.maxX, cy)
  }

  // A box that can be halved in 32 bits.
  ghost predicate Spans32(b: Box) {
    Sound(b) && Fits32(b) && b.maxX - b.minX <= INT_MAX && b.maxY - b.minY <= INT_MAX
  }

  // Its quadrants meet in the middle just if it is such a box.
  lemma HalvedIff(b: Box)
    requires Sound(b) && Fits32(b)
    ensures Quadrant(b, 0) == Box(b.minX + (b.maxX - b.minX) / 2, b.minY + (b.maxY - b.minY) / 2, b.maxX, b.maxY)
       <==> Spans32(b)
  {
    MiddleIff(b.minX, b.maxX);
    MiddleIff(b.minY, b.maxY);
  }

  // It is its own quadrant just if each side has at most one unit, or is the whole range.
  lemma RepeatsIff(b: Box)
    requires Sound(b) && Fits32(b)
    ensures Quadrant(b, 0) == b <==>
      && (b.maxX - b.minX <= 1 || b.maxX - b.minX == WORD - 1)
      && (b.maxY - b.minY <= 1 || b.maxY - b.minY == WORD - 1)
  {
    MiddleStays(b.minX, b.maxX);
    MiddleStays(b.minY, b.maxY);
  }

  function Point(x: int, y: int): Box {
    Box(x, y, x, y)
  }

  // No side longer than one: halving such a box changes nothing.
  predicate Tiny(b: Box) {
    b.maxX - b.minX <= 1 && b.maxY - b.minY <= 1
  }

  function Girth(b: Box): int {
    b.maxX - b.minX + b.maxY - b.minY
  }

  lemma QuadrantSmaller(b: Box, i: nat)
    requires Spans32(b) && i < 4
    ensures 0 <= Girth(Quadrant(b, i)) <= Girth(b)
    ensures !Tiny(b) ==> Girth(Quadrant(b, i)) < Girth(b)
  {
  }

  // The points of a quadrant are those of the box on its side of the middle.
  lemma QuadrantPoints(b: Box, i: nat, x: int, y: int)
    requires Spans32(b) && i < 4
    ensures var cx, cy := b.minX + (b.maxX - b.minX) / 2, b.minY + (b.maxY - b.minY) / 2;
            In(x, y, Quadrant(b, i)) <==>
              && In(x, y, b) && (if i == 0 || i == 3 then x >= cx else x <= cx)
              && (if i <= 1 then y >= cy else y <= cy)
  {
  }

  // The quadrants cover their box.
  lemma QuadrantsCover(b: Box, x: int, y: int) returns (i: nat)
    requires Spans32(b) && In(x, y, b)
    ensures i < 4 && In(x, y, Quadrant(b, i))
  {
    var cx, cy := Middle(b.minX, b.maxX), Middle(b.minY, b.maxY);
    i := if x >= cx then (if y >= cy then 0 else 3) else (if y >= cy then 1 else 2);
  }

  // What meets a box meets one of its quadrants.
  lemma MeetsQuadrant(b: Box, o: Box) returns (i: nat)
    requires Spans32(b) && Sound(o) && Intersect(b, o)
    ensures i < 4 && Intersect(Quadrant(b, i), o)
  {
    var x, y := PairwiseMeet(b, o, o);
    i := QuadrantsCover(b, x, y);
  }

  // A tiny box lies in one of the quadrants.
  lemma TinyInQuadrant(b: Box, t: Box) returns (i: nat)
    requires Spans32(b) && Sound(t) && Tiny(t) && Contain(b, t)
    ensures i < 4 && Contain(Quadrant(b, i), t)
  {
    var cx, cy := Middle(b.minX, b.maxX), Middle(b.minY, b.maxY);
    i := if t.minX >= cx then (if t.minY >= cy then 0 else 3) else (if t.minY >= cy then 1 else 2);
  }

  lemma MissesInside(outer: Box, inner: Box, o: Box)
    requires Contain(outer, inner) && Intersect(inner, o)
    ensures Intersect(outer, o)
  {
  }

  type Live = map<int, Box>

  ghost predicate Ids(objs: seq<Obj>) {
    forall i, j :: 0 <= i < j < |objs| ==> objs[i].id != objs[j].id
  }

  // A leaf holds the live objects that meet its box and no others; only at the top it may hold others.
  ghost predicate LeafHolds(box: Box, objs: seq<Obj>, live: Live, maxElem: nat, top: bool) {
    && |objs| <= maxElem && Ids(objs)
    && (forall o :: o in objs ==> o.id in live && live[o.id] == o.box && (top || Intersect(box, o.box)))
    && (forall id :: id in live && Intersect(box, live[id]) ==> Obj(id, live[id]) in objs)
  }

  ghost predicate Holds(t: Quad, live: Live, maxElem: nat, top: bool)
    decreases t
  {
    match t
    case Leaf(box, objs) => Sound(box) && LeafHolds(box, objs, live, maxElem, top)
    case Inner(box, kids) =>
      Spans32(box) && |kids| == 4 && (top || !Tiny(box)) && forall i :: 0 <= i < 4 ==>
        kids[i].box == Quadrant(box, i) && Holds(kids[i], live, maxElem, false)
  }

  ghost predicate AllSound(live: Live) {
    forall id :: id in live ==> Sound(live[id])
  }

  // A change of one object does not concern the nodes it does not meet.
  lemma {:induction false} HoldsStill(t: Quad, live: Live, live': Live, id: int, maxElem: nat)
    requires Holds(t, live, maxElem, false)
    requires live - {id} == live' - {id}
    requires (id in live ==> !Intersect(t.box, live[id])) && (id in live' ==> !Intersect(t.box, live'[id]))
    ensures Holds(t, live', maxElem, false)
    decreases t
  {
    forall k | k in live || k in live' ensures k != id ==> k in live && k in live' && live[k] == live'[k] {
      if k != id { assert k in live - {id} <==> k in live' - {id}; assert (live - {id})[k] == (live' - {id})[k]; }
    }
    if t.Inner? {
      forall i | 0 <= i < 4 ensures Holds(t.kids[i], live', maxElem, false) {
        HoldsStill(t.kids[i], live, live', id, maxElem);
      }
    }
  }

  ghost function Meeting(live: Live, b: Box): set<int> {
    set id | id in live && Intersect(b, live[id])
  }

  // No tiny box meets more objects than a leaf takes.
  ghost predicate Sparse(live: Live, root: Box, maxElem: nat) {
    forall b :: Sound(b) && Tiny(b) && Contain(root, b) ==> |Meeting(live, b)| <= maxElem
  }

  // What an insertion asks of the objects afterwards: either they all fit in one leaf, or the root box can be
  // halved and they are sparse.
  ghost predicate Manageable(live: Live, root: Box, maxElem: nat) {
    |live| <= maxElem || (Spans32(root) && Sparse(live, root, maxElem))
  }

  lemma ManageableIsSparse(live: Live, root: Box, maxElem: nat)
    requires Manageable(live, root, maxElem)
    ensures Sparse(live, root, maxElem)
  {
    if |live| <= maxElem {
      forall b ensures |Meeting(live, b)| <= maxElem { Subset(Meeting(live, b), live.Keys); }
    }
  }

  function IdSet(objs: seq<Obj>): (s: set<int>)
    ensures forall o :: o in objs ==> o.id in s
  {
    set o | o in objs :: o.id
  }

  lemma {:induction false} IdCount(objs: seq<Obj>)
    requires Ids(objs)
    ensures |IdSet(objs)| == |objs|
  {
    if objs != [] {
      var init, last := objs[..|objs| - 1], objs[|objs| - 1];
      IdCount(init);
      assert objs == init + [last];
      assert IdSet(objs) == IdSet(init) + {last.id};
      assert last.id !in IdSet(init);
    }
  }

  lemma Subset(a: set<int>, b: set<int>)
    requires a <= b
    ensures |a| <= |b|
  {
    assert b == a + (b - a);
  }

  // Every tree there can be is sparse: the condition under which an insertion ends is necessary.
  lemma {:induction false} HoldsOnlySparse(t: Quad, live: Live, maxElem: nat, top: bool, b: Box)
    requires Holds(t, live, maxElem, top) && Sound(b) && Tiny(b) && Contain(t.box, b)
    ensures |Meeting(live, b)| <= maxElem
    decreases t
  {
    match t
    case Leaf(box, objs) =>
      IdCount(objs);
      forall id | id in Meeting(live, b) ensures id in IdSet(objs) {
        MissesInside(box, b, live[id]);
        assert Obj(id, live[id]) in objs;
      }
      Subset(Meeting(live, b), IdSet(objs));
    case Inner(box, kids) =>
      var i := TinyInQuadrant(box, b);
      HoldsOnlySparse(kids[i], live, maxElem, false, b);
  }

  // A full leaf that gets one more object its box meets is not tiny.
  lemma FullIsNotTiny(box: Box, objs: seq<Obj>, live: Live, o: Obj, root: Box, maxElem: nat)
    requires LeafHolds(box, objs, live, maxElem, false) && |objs| == maxElem && o.id !in live && Intersect(box, o.box)
    requires Sound(box) && Contain(root, box) && Sparse(live[o.id := o.box], root, maxElem)
    ensures !Tiny(box)
  {
    if Tiny(box) {
      IdCount(objs);
      var m := Meeting(live[o.id := o.box], box);
      assert o.id !in IdSet(objs);
      assert IdSet(objs) + {o.id} <= m;
      Subset(IdSet(objs) + {o.id}, m);
      assert false;
    }
  }

  // What a split of a tiny leaf does: the first quadrant is the same leaf again, with the same objects.
  lemma TinySplitRepeats(box: Box, objs: seq<Obj>)
    requires Spans32(box) && Tiny(box) && forall o :: o in objs ==> Intersect(box, o.box)
    ensures Quadrant(box, 0) == box && Selected(objs, Quadrant(box, 0)) == objs
  {
    SelectedAll(objs, box);
  }

  // The objects that meet a box, in order.
  function Selected(objs: seq<Obj>, b: Box): (r: seq<Obj>)
    ensures forall o :: o in r <==> o in objs && Intersect(b, o.box)
    ensures |r| <= |objs|
  {
    if objs == [] then []
    else
      var r := Selected(objs[..|objs| - 1], b);
      var last := objs[|objs| - 1];
      assert objs == objs[..|objs| - 1] + [last];
      if Intersect(b, last.box) then r + [last] else r
  }

  // A leaf divided.
  ghost function Divided(b: Box, objs: seq<Obj>): (kids: seq<Quad>)
    ensures |kids| == 4 && forall i :: 0 <= i < 4 ==> kids[i] == Leaf(Quadrant(b, i), Selected(objs, Quadrant(b, i)))
  {
    seq(4, i requires 0 <= i < 4 => Leaf(Quadrant(b, i), Selected(objs, Quadrant(b, i))))
  }

  lemma {:induction false} SelectedAll(objs: seq<Obj>, b: Box)
    requires forall o :: o in objs ==> Intersect(b, o.box)
    ensures Selected(objs, b) == objs
  {
    if objs != [] { SelectedAll(objs[..|objs| - 1], b); }
  }

  lemma {:induction false} SelectedIds(objs: seq<Obj>, b: Box)
    requires Ids(objs)
    ensures Ids(Selected(objs, b))
  {
    if objs != [] {
      SelectedIds(objs[..|objs| - 1], b);
      var r := Selected(objs[..|objs| - 1], b);
      forall i | 0 <= i < |r| ensures r[i].id != objs[|objs| - 1].id { assert r[i] in r; }
    }
  }

  // The objects of a leaf selected for a quadrant are what the quadrant has to hold.
  lemma QuadrantHolds(box: Box, objs: seq<Obj>, live: Live, maxElem: nat, top: bool, i: nat)
    requires Spans32(box) && LeafHolds(box, objs, live, maxElem, top) && i < 4
    ensures Holds(Leaf(Quadrant(box, i), Selected(objs, Quadrant(box, i))), live, maxElem, false)
  {
    var q := Quadrant(box, i);
    SelectedIds(objs, q);
    forall id | id in live && Intersect(q, live[id]) ensures Obj(id, live[id]) in Selected(objs, q) {
      MissesInside(box, q, live[id]);
    }
  }

  lemma LeafGains(box: Box, objs: seq<Obj>, live: Live, o: Obj, maxElem: nat, top: bool)
    requires LeafHolds(box, objs, live, maxElem, top) && |objs| < maxElem && o.id !in live &&
             (top || Intersect(box, o.box))
    ensures LeafHolds(box, objs + [o], live[o.id := o.box], maxElem, top)
  {
    forall i | 0 <= i < |objs| ensures objs[i].id != o.id { assert objs[i] in objs; }
  }

  // An object leaves a leaf.
  lemma LeafLoses(box: Box, objs: seq<Obj>, rest: seq<Obj>, live: Live, o: Obj, maxElem: nat, top: bool)
    requires LeafHolds(box, objs, live, maxElem, top) && o.id in live
    requires |rest| <= |objs| && Ids(rest) && forall x :: x in rest <==> x in objs && x.id != o.id
    ensures LeafHolds(box, rest, live - {o.id}, maxElem, top)
  {
  }

  // Four empty leaves: nothing meets their parent.
  lemma NothingMeets(t: Quad, live: Live, maxElem: nat, top: bool)
    requires Holds(t, live, maxElem, top) && AllSound(live) && t.Inner?
    requires forall i :: 0 <= i < 4 ==> t.kids[i].Leaf? && t.kids[i].objs == []
    ensures Holds(Leaf(t.box, []), live, maxElem, top)
  {
    assert forall i :: 0 <= i < 4 ==> Holds(t.kids[i], live, maxElem, false);
    forall id | id in live ensures !Intersect(t.box, live[id]) {
      if Intersect(t.box, live[id]) {
        var i := MeetsQuadrant(t.box, live[id]);
      }
    }
  }

  // The first n subtrees hold what is to be held afterwards, the others what was held before.
  ghost predicate Mixed(t: Quad, before: Live, after: Live, maxElem: nat, n: nat) {
    && t.Inner? && |t.kids| == 4
    && (forall i :: 0 <= i < 4 ==> t.kids[i].box == Quadrant(t.box, i))
    && (forall i :: 0 <= i < 4 && i < n ==> Holds(t.kids[i], after, maxElem, false))
    && (forall i :: 0 <= n <= i < 4 ==> Holds(t.kids[i], before, maxElem, false))
  }

  lemma SplitHolds(box: Box, objs: seq<Obj>, live: Live, maxElem: nat, top: bool)
    requires Spans32(box) && LeafHolds(box, objs, live, maxElem, top) && (top || !Tiny(box))
    ensures Holds(Inner(box, Divided(box, objs)), live, maxElem, top)
  {
    forall i | 0 <= i < 4 ensures Holds(Divided(box, objs)[i], live, maxElem, false) {
      QuadrantHolds(box, objs, live, maxElem, top, i);
    }
  }

  ghost predicate AllEmpty(t: Quad) {
    t.Inner? && forall k :: k in t.kids ==> k.Leaf? && k.objs == []
  }

  // When all four leaves are empty after a removal from the first n, the others did not hold the object.
  lemma MergeHolds(t: Quad, live: Live, o: Obj, maxElem: nat, top: bool, n: nat)
    requires Mixed(t, live, live - {o.id}, maxElem, n) && AllEmpty(t) && Spans32(t.box) && AllSound(live) &&
             (top || !Tiny(t.box))
    requires o.id in live && live[o.id] == o.box
    ensures Holds(Leaf(t.box, []), live - {o.id}, maxElem, top)
    ensures forall j :: 0 <= n <= j < 4 ==> !Intersect(Quadrant(t.box, j), o.box)
  {
    forall j | 0 <= j < 4
      ensures Holds(t.kids[j], live - {o.id}, maxElem, false) && t.kids[j].Leaf? && t.kids[j].objs == []
    {
      assert t.kids[j] in t.kids;
      if n <= j { HoldsStill(t.kids[j], live, live - {o.id}, o.id, maxElem); }
    }
    NothingMeets(t, live - {o.id}, maxElem, top);
  }

  lemma SwapRemovedIds(objs: seq<Obj>, k: nat)
    requires Ids(objs) && k < |objs|
    ensures Ids(SwapRemoved(objs, k)) && forall x :: x in SwapRemoved(objs, k) <==> x in objs && x.id != objs[k].id
  {
    SwapRemovedHas(objs, k);
    var r, last := SwapRemoved(objs, k), |objs| - 1;
    assert forall j :: 0 <= j < last ==> r[j] == if j == k then objs[last] else objs[j];
  }
}
