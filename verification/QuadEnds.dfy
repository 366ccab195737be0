// When an insertion into a quadtree ends: where the root can be halved in 32 bits, exactly when no tiny box then
// meets more objects than a leaf takes.
module QuadEnds {
  import opened Geometry
  import opened QuadShape

  // What a recursion of bounded depth comes to: a tree, or nothing yet.
  datatype Outcome = Done(tree: Quad) | TooDeep

  // Adding an object as the tree does it, with the depth of the recursion limited.
  ghost function Added(t: Quad, o: Obj, maxElem: nat, depth: nat): Outcome
    decreases depth, 0
  {
    if depth == 0 then TooDeep
    else
      match t
      case Leaf(box, objs) =>
        if |objs| < maxElem then Done(Leaf(box, objs + [o]))
        else Added(Inner(box, Divided(box, objs)), o, maxElem, depth - 1)
      case Inner(box, kids) =>
        if |kids| == 4 && forall i :: 0 <= i < 4 ==>
          AddedTo(kids[i], Quadrant(box, i), o, maxElem, depth - 1).Done? then
          Done(Inner(box, seq(4,
            i requires 0 <= i < 4 => AddedTo(kids[i], Quadrant(box, i), o, maxElem, depth - 1).tree)))
        else TooDeep
  }

  // Only the subtrees whose boxes the object meets are gone into.
  ghost function AddedTo(kid: Quad, box: Box, o: Obj, maxElem: nat, depth: nat): Outcome
    decreases depth, 1
  {
    if Intersect(box, o.box) then Added(kid, o, maxElem, depth) else Done(kid)
  }

  // What ends with a bound ends the same with any greater one.
  lemma {:induction false} DeeperSame(t: Quad, o: Obj, maxElem: nat, depth: nat, more: nat)
    requires Added(t, o, maxElem, depth).Done? && depth <= more
    ensures Added(t, o, maxElem, more) == Added(t, o, maxElem, depth)
    decreases depth
  {
    match t
    case Leaf(box, objs) =>
      if |objs| >= maxElem { DeeperSame(Inner(box, Divided(box, objs)), o, maxElem, depth - 1, more - 1); }
    case Inner(box, kids) =>
      forall i | 0 <= i < 4
        ensures AddedTo(kids[i], Quadrant(box, i), o, maxElem, more - 1)
             == AddedTo(kids[i], Quadrant(box, i), o, maxElem, depth - 1)
      {
        assert AddedTo(kids[i], Quadrant(box, i), o, maxElem, depth - 1).Done?;
        if Intersect(Quadrant(box, i), o.box) { DeeperSame(kids[i], o, maxElem, depth - 1, more - 1); }
      }
      assert Added(t, o, maxElem, more).Done?;
      assert Added(t, o, maxElem, more).tree.kids == Added(t, o, maxElem, depth).tree.kids;
  }

  ghost predicate Ends(t: Quad, o: Obj, maxElem: nat) {
    exists depth: nat :: Added(t, o, maxElem, depth).Done?
  }

  // A full leaf whose box is its own quadrant is split into the same leaf, and again, however deep: adding an
  // object that meets it does not end.
  lemma {:induction false} RepeatsNeverEnds(box: Box, objs: seq<Obj>, o: Obj, maxElem: nat, depth: nat)
    requires Quadrant(box, 0) == box && |objs| >= maxElem && Intersect(box, o.box)
    requires forall x :: x in objs ==> Intersect(box, x.box)
    ensures Added(Leaf(box, objs), o, maxElem, depth) == TooDeep
    decreases depth
  {
    if depth >= 2 {
      RepeatsNeverEnds(box, objs, o, maxElem, depth - 2);
      RepeatsDeeper(box, objs, o, maxElem, depth);
    }
  }

  // A tiny box is its own quadrant.
  lemma TinyNeverEnds(box: Box, objs: seq<Obj>, o: Obj, maxElem: nat, depth: nat)
    requires Spans32(box) && Tiny(box) && |objs| >= maxElem && Intersect(box, o.box)
    requires forall x :: x in objs ==> Intersect(box, x.box)
    ensures Added(Leaf(box, objs), o, maxElem, depth) == TooDeep
  {
    TinySplitRepeats(box, objs);
    RepeatsNeverEnds(box, objs, o, maxElem, depth);
  }

  lemma RepeatsDeeper(box: Box, objs: seq<Obj>, o: Obj, maxElem: nat, depth: nat)
    requires Quadrant(box, 0) == box && |objs| >= maxElem && Intersect(box, o.box) && depth >= 2
    requires forall x :: x in objs ==> Intersect(box, x.box)
    requires Added(Leaf(box, objs), o, maxElem, depth - 2) == TooDeep
    ensures Added(Leaf(box, objs), o, maxElem, depth) == TooDeep
  {
    SelectedAll(objs, box);
    var kids := Divided(box, objs);
    assert kids[0] == Leaf(box, objs);
    assert AddedTo(kids[0], Quadrant(box, 0), o, maxElem, depth - 2) == TooDeep;
  }

  // The tree can be split, or is a leaf that need not be.
  ghost predicate Splittable(t: Quad, maxElem: nat) {
    Spans32(t.box) || (t.Leaf? && |t.objs| < maxElem)
  }

  // If it ends, the leaves hold what they have to.
  lemma {:induction false} AddedHolds(t: Quad, live: map<int, Box>, o: Obj, maxElem: nat, top: bool, depth: nat)
    requires Holds(t, live, maxElem, top) && o.id !in live && (top || Intersect(t.box, o.box))
    requires Added(t, o, maxElem, depth).Done? && Splittable(t, maxElem)
    ensures var r := Added(t, o, maxElem, depth).tree; r.box == t.box && Holds(r, live[o.id := o.box], maxElem, top)
    decreases depth, 0
  {
    match t
    case Leaf(box, objs) =>
      if |objs| < maxElem {
        LeafGains(box, objs, live, o, maxElem, top);
      } else {
        if !top && Tiny(box) { TinyNeverEnds(box, objs, o, maxElem, depth); }
        SplitHolds(box, objs, live, maxElem, top);
        AddedHolds(Inner(box, Divided(box, objs)), live, o, maxElem, top, depth - 1);
      }
    case Inner(box, kids) =>
      forall i | 0 <= i < 4
        ensures var r := AddedTo(kids[i], Quadrant(box, i), o, maxElem, depth - 1).tree;
                r.box == Quadrant(box, i) && Holds(r, live[o.id := o.box], maxElem, false)
      {
        KidAddedHolds(kids[i], Quadrant(box, i), live, o, maxElem, depth - 1);
      }
  }

  lemma {:induction false} KidAddedHolds(kid: Quad, box: Box, live: map<int, Box>, o: Obj, maxElem: nat, depth: nat)
    requires Holds(kid, live, maxElem, false) && kid.box == box && o.id !in live && Spans32(box)
    requires AddedTo(kid, box, o, maxElem, depth).Done?
    ensures var r := AddedTo(kid, box, o, maxElem, depth).tree;
            r.box == box && Holds(r, live[o.id := o.box], maxElem, false)
    decreases depth, 1
  {
    if Intersect(box, o.box) {
      AddedHolds(kid, live, o, maxElem, false, depth);
    } else {
      HoldsStill(kid, live, live[o.id := o.box], o.id, maxElem);
    }
  }

  // If the objects are sparse afterwards, it ends: the boxes gone into get smaller until they are tiny.
  lemma {:induction false} SparseEnds(t: Quad, live: map<int, Box>, o: Obj, root: Box, maxElem: nat, top: bool)
    returns (depth: nat)
    requires Holds(t, live, maxElem, top) && o.id !in live && (top || Intersect(t.box, o.box))
    requires Contain(root, t.box) && Sparse(live[o.id := o.box], root, maxElem) && Splittable(t, maxElem)
    ensures Added(t, o, maxElem, depth).Done?
    decreases Girth(t.box), top, t.Leaf?
  {
    match t
    case Leaf(box, objs) =>
      if |objs| < maxElem {
        depth := 1;
      } else {
        if !top { FullIsNotTiny(box, objs, live, o, root, maxElem); }
        SplitHolds(box, objs, live, maxElem, top);
        var d := SparseEnds(Inner(box, Divided(box, objs)), live, o, root, maxElem, top);
        depth := d + 1;
      }
    case Inner(box, kids) =>
      var d := 0;
      var i := 0;
      while i < 4
        invariant i <= 4 && forall j :: 0 <= j < i ==> AddedTo(kids[j], Quadrant(box, j), o, maxElem, d).Done?
      {
        var more := d;
        if Intersect(Quadrant(box, i), o.box) {
          QuadrantSmaller(box, i);
          var e := SparseEnds(kids[i], live, o, root, maxElem, false);
          more := if e < d then d else e;
          DeeperSame(kids[i], o, maxElem, e, more);
        }
        forall j | 0 <= j < i ensures AddedTo(kids[j], Quadrant(box, j), o, maxElem, more).Done? {
          assert AddedTo(kids[j], Quadrant(box, j), o, maxElem, d).Done?;
          if Intersect(Quadrant(box, j), o.box) { DeeperSame(kids[j], o, maxElem, d, more); }
        }
        d, i := more, i + 1;
      }
      depth := d + 1;
  }

  // The object has been added to the first i subtrees of t0, and t is what has become of it.
  ghost predicate AddedUpTo(t0: Quad, t: Quad, o: Obj, maxElem: nat, i: nat, depth: nat) {
    && t0.Inner? && t.Inner? && t.box == t0.box && |t0.kids| == |t.kids| == 4
    && (forall j :: 0 <= j < 4 && j < i ==>
          AddedTo(t0.kids[j], Quadrant(t0.box, j), o, maxElem, depth) == Done(t.kids[j]))
    && (forall j :: 0 <= i <= j < 4 ==> t.kids[j] == t0.kids[j])
  }

  lemma NextAdded(t0: Quad, t: Quad, o: Obj, maxElem: nat, i: nat, d: nat, kid: Quad, e: nat) returns (depth: nat)
    requires AddedUpTo(t0, t, o, maxElem, i, d) && i < 4
    requires AddedTo(t0.kids[i], Quadrant(t0.box, i), o, maxElem, e) == Done(kid)
    ensures AddedUpTo(t0, Inner(t.box, t.kids[i := kid]), o, maxElem, i + 1, depth)
  {
    depth := if d < e then e else d;
    forall j | 0 <= j <= i
      ensures AddedTo(t0.kids[j], Quadrant(t0.box, j), o, maxElem, depth) == Done(t.kids[i := kid][j])
    {
      if Intersect(Quadrant(t0.box, j), o.box) { DeeperSame(t0.kids[j], o, maxElem, if j == i then e else d, depth); }
    }
  }

  lemma AllAdded(t0: Quad, t: Quad, o: Obj, maxElem: nat, depth: nat)
    requires AddedUpTo(t0, t, o, maxElem, 4, depth)
    ensures Added(t0, o, maxElem, depth + 1) == Done(t)
  {
    assert Added(t0, o, maxElem, depth + 1).Done?;
    assert Added(t0, o, maxElem, depth + 1).tree.kids == t.kids;
  }

  // An insertion of a new object ends exactly when no tiny box within the root then meets more objects than a
  // leaf takes.
  lemma AddingEndsIff(t: Quad, live: map<int, Box>, o: Obj, maxElem: nat)
    requires Holds(t, live, maxElem, true) && o.id !in live && Spans32(t.box)
    ensures Ends(t, o, maxElem) <==> Sparse(live[o.id := o.box], t.box, maxElem)
  {
    var after := live[o.id := o.box];
    if Ends(t, o, maxElem) {
      var depth: nat :| Added(t, o, maxElem, depth).Done?;
      AddedHolds(t, live, o, maxElem, true, depth);
      forall b | Sound(b) && Tiny(b) && Contain(t.box, b) ensures |Meeting(after, b)| <= maxElem {
        HoldsOnlySparse(Added(t, o, maxElem, depth).tree, after, maxElem, true, b);
      }
    }
    if Sparse(after, t.box, maxElem) {
      var depth := SparseEnds(t, live, o, t.box, maxElem, true);
    }
  }

  // Objects with the ids up to n that all lie on one point.
  function Crowd(n: nat): (c: map<int, Box>)
    ensures forall id :: id in c <==> 1 <= id <= n
  {
    if n == 0 then map[] else Crowd(n - 1)[n := Point(0, 0)]
  }

  lemma {:induction false} CrowdMeets(n: nat, b: Box)
    ensures |Meeting(Crowd(n), b)| == if Intersect(b, Point(0, 0)) then n else 0
  {
    if n == 0 {
      assert Meeting(Crowd(n), b) == {};
    } else {
      CrowdMeets(n - 1, b);
      assert Meeting(Crowd(n), b) == Meeting(Crowd(n - 1), b) + (if Intersect(b, Point(0, 0)) then {n} else {});
    }
  }

  // So many objects on one point are sparse just if a leaf takes them all, whatever the root around the point.
  lemma CrowdSparseIff(n: nat, root: Box, maxElem: nat)
    requires Sound(root) && Contain(root, Point(0, 0))
    ensures Sparse(Crowd(n), root, maxElem) <==> n <= maxElem
  {
    CrowdMeets(n, Point(0, 0));
    if n <= maxElem {
      forall b ensures |Meeting(Crowd(n), b)| <= maxElem { CrowdMeets(n, b); }
    }
  }

  // One object more on that point than a leaf takes: the tree holds those before it, and adding it never ends.
  lemma CrowdNeverEnds(t: Quad, maxElem: nat)
    requires Contain(t.box, Point(0, 0)) && Spans32(t.box) && Holds(t, Crowd(maxElem), maxElem, true)
    ensures !Ends(t, Obj(maxElem + 1, Point(0, 0)), maxElem)
  {
    CrowdSparseIff(maxElem + 1, t.box, maxElem);
    AddingEndsIff(t, Crowd(maxElem), Obj(maxElem + 1, Point(0, 0)), maxElem);
  }

  // The objects with the ids up to n, in order.
  function Listed(live: map<int, Box>, n: nat): (objs: seq<Obj>)
    requires forall id :: 1 <= id <= n ==> id in live
    ensures |objs| == n && forall i :: 0 <= i < n ==> objs[i] == Obj(i + 1, live[i + 1])
  {
    seq(n, i requires 0 <= i < n => Obj(i + 1, live[i + 1]))
  }

  // As many objects as a leaf takes are a tree by themselves.
  lemma ListedHolds(root: Box, live: map<int, Box>, n: nat, maxElem: nat)
    requires Sound(root) && n <= maxElem && forall id :: id in live <==> 1 <= id <= n
    ensures Holds(Leaf(root, Listed(live, n)), live, maxElem, true)
  {
    var objs := Listed(live, n);
    forall id | id in live ensures Obj(id, live[id]) in objs { assert objs[id - 1] == Obj(id, live[id]); }
  }

  // So there is such a tree under every root around the point.
  lemma CrowdWitness(root: Box, maxElem: nat)
    requires Spans32(root) && Contain(root, Point(0, 0))
    ensures var t := Leaf(root, Listed(Crowd(maxElem), maxElem));
            Holds(t, Crowd(maxElem), maxElem, true) && !Ends(t, Obj(maxElem + 1, Point(0, 0)), maxElem)
  {
    ListedHolds(root, Crowd(maxElem), maxElem, maxElem);
    CrowdNeverEnds(Leaf(root, Listed(Crowd(maxElem), maxElem)), maxElem);
  }

  const PLANE: Box := Box(INT_MIN, INT_MIN, INT_MAX, INT_MAX)

  // Under a root as wide as the coordinates go a full leaf takes no further object, wherever the objects are:
  // the root's first quadrant is the root.
  lemma PlaneNeverEnds(objs: seq<Obj>, o: Obj, maxElem: nat)
    requires |objs| >= maxElem && Fits32(o.box) && forall x :: x in objs ==> Fits32(x.box)
    ensures !Ends(Leaf(PLANE, objs), o, maxElem)
  {
    RepeatsIff(PLANE);
    forall depth: nat ensures Added(Leaf(PLANE, objs), o, maxElem, depth) == TooDeep {
      RepeatsNeverEnds(PLANE, objs, o, maxElem, depth);
    }
  }

  // Objects with the ids up to n on points in a row, with gaps between them.
  function Row(n: nat): (c: map<int, Box>)
    ensures forall id :: id in c <==> 1 <= id <= n
    ensures forall id :: id in c ==> c[id] == Point(2 * id, 0)
  {
    if n == 0 then map[] else Row(n - 1)[n := Point(2 * n, 0)]
  }

  // A tiny box meets one of them at most.
  lemma RowSparse(n: nat, root: Box, maxElem: nat)
    requires maxElem > 0
    ensures Sparse(Row(n), root, maxElem)
  {
    forall b | Sound(b) && Tiny(b) && Contain(root, b) ensures |Meeting(Row(n), b)| <= maxElem {
      var m := Meeting(Row(n), b);
      if id :| id in m {
        assert forall x :: x in m ==> x == id;
        assert m == {id};
      }
    }
  }

  lemma RowNext(n: nat)
    ensures Row(n)[n + 1 := Point(2 * (n + 1), 0)] == Row(n + 1)
  {
  }

  // So it is not enough there that the objects are sparse.
  lemma RowWitness(maxElem: nat)
    requires 0 < maxElem < COORD - 1
    ensures var t, o := Leaf(PLANE, Listed(Row(maxElem), maxElem)), Obj(maxElem + 1, Point(2 * (maxElem + 1), 0));
            && Holds(t, Row(maxElem), maxElem, true) && Sparse(Row(maxElem)[o.id := o.box], PLANE, maxElem)
            && !Ends(t, o, maxElem)
  {
    hide Row, Holds, Sparse, Ends;
    RowNext(maxElem);
    ListedHolds(PLANE, Row(maxElem), maxElem, maxElem);
    RowSparse(maxElem + 1, PLANE, maxElem);
    PlaneNeverEnds(Listed(Row(maxElem), maxElem), Obj(maxElem + 1, Point(2 * (maxElem + 1), 0)), maxElem);
  }
}
