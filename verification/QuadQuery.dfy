// Searching a quadtree: a worklist of subtrees, and what it and the results so far must satisfy.
module QuadQuery {
  import opened Geometry
  import opened QuadShape
  import opened SpatialIndex

  datatype Query = Query(box: Box, check: Check, limit: nat, root: Box)

  predicate Matches(q: Query, b: Box) {
    Intersect(b, q.box) && q.check(b)
  }

  // A point shared by the query, the root box and an object that meets both.
  function CommonPoint(q: Query, b: Box): Box {
    Point(Max(b.minX, Max(q.box.minX, q.root.minX)), Max(b.minY, Max(q.box.minY, q.root.minY)))
  }

  lemma CommonPointMeets(q: Query, b: Box)
    requires Sound(q.box) && Sound(q.root) && Sound(b)
    requires Intersect(b, q.box) && Intersect(q.root, b) && Intersect(q.box, q.root)
    ensures Intersect(b, CommonPoint(q, b)) && Intersect(q.box, CommonPoint(q, b)) &&
            Intersect(q.root, CommonPoint(q, b))
  {
  }

  // Some subtree still to be searched has the point in its box.
  ghost predicate Awaited(ts: seq<Quad>, p: Box) {
    exists i :: 0 <= i < |ts| && Intersect(ts[i].box, p)
  }

  // The results: matching live objects, none twice.
  ghost predicate Found(live: Live, q: Query, result: seq<Obj>) {
    Ids(result) && forall o :: o in result ==> o.id in live && live[o.id] == o.box && Matches(q, o.box)
  }

  ghost predicate Searching(ts: seq<Quad>, live: Live, maxElem: nat, q: Query, result: seq<Obj>) {
    && (forall i :: 0 <= i < |ts| ==> Holds(ts[i], live, maxElem, true)) && Found(live, q, result)
    && forall id ::
         id in live && Matches(q, live[id]) && Intersect(q.root, live[id]) && Obj(id, live[id]) !in result ==>
           Awaited(ts, CommonPoint(q, live[id]))
  }

  // The size of a tree, and of all trees of a worklist.
  ghost function Size(t: Quad): nat
    decreases t
  {
    match t
    case Leaf(_, _) => 1
    case Inner(_, kids) => 1 + Sizes(kids, |kids|)
  }

  ghost function Sizes(ts: seq<Quad>, n: nat): nat
    requires n <= |ts|
    decreases ts, n
  {
    if n == 0 then 0 else Sizes(ts, n - 1) + Size(ts[n - 1])
  }

  ghost function Weight(ts: seq<Quad>): nat {
    Sizes(ts, |ts|)
  }

  lemma {:induction false} SizesPrefix(ts: seq<Quad>, us: seq<Quad>, n: nat)
    requires n <= |ts| && n <= |us| && forall i :: 0 <= i < n ==> ts[i] == us[i]
    ensures Sizes(ts, n) == Sizes(us, n)
  {
    if n > 0 { SizesPrefix(ts, us, n - 1); }
  }

  lemma WeightSnoc(ts: seq<Quad>, t: Quad)
    ensures Weight(ts + [t]) == Weight(ts) + Size(t)
  {
    SizesPrefix(ts + [t], ts, |ts|);
  }

  lemma HoldsAtTop(t: Quad, live: Live, maxElem: nat)
    requires Holds(t, live, maxElem, false)
    ensures Holds(t, live, maxElem, true)
  {
  }

  // A leaf has been searched once all its matching objects are among the results.
  lemma LeafSearched(ts: seq<Quad>, live: Live, maxElem: nat, q: Query, result: seq<Obj>, result': seq<Obj>)
    requires ts != [] && Searching(ts, live, maxElem, q, result) && ts[|ts| - 1].Leaf? && AllSound(live)
    requires Sound(q.box) && Sound(q.root) && Intersect(q.box, q.root)
    requires Found(live, q, result') && (forall o :: o in result ==> o in result')
    requires forall o :: o in ts[|ts| - 1].objs && Matches(q, o.box) ==> o in result'
    ensures Searching(ts[..|ts| - 1], live, maxElem, q, result')
  {
    var last := |ts| - 1;
    forall id | id in live && Matches(q, live[id]) && Intersect(q.root, live[id]) && Obj(id, live[id]) !in result'
      ensures Awaited(ts[..last], CommonPoint(q, live[id]))
    {
      var p := CommonPoint(q, live[id]);
      var i :| 0 <= i < |ts| && Intersect(ts[i].box, p);
      CommonPointMeets(q, live[id]);
      assert Holds(ts[last], live, maxElem, true);
      if i == last { MissesInside(ts[last].box, p, live[id]); }
      assert ts[..last][i] == ts[i];
    }
  }

  // The children of an inner node that meet the query, in order.
  function Picked(kids: seq<Quad>, b: Box): (r: seq<Quad>)
    ensures forall t :: t in r <==> t in kids && Intersect(b, t.box)
  {
    if kids == [] then []
    else
      var last := kids[|kids| - 1];
      assert kids == kids[..|kids| - 1] + [last];
      if Intersect(b, last.box) then Picked(kids[..|kids| - 1], b) + [last] else Picked(kids[..|kids| - 1], b)
  }

  lemma OpenedHolds(init: seq<Quad>, t: Quad, live: Live, maxElem: nat, b: Box)
    requires (forall i :: 0 <= i < |init| ==> Holds(init[i], live, maxElem, true)) && t.Inner? &&
             Holds(t, live, maxElem, true)
    ensures var us := init + Picked(t.kids, b); forall i :: 0 <= i < |us| ==> Holds(us[i], live, maxElem, true)
  {
    var picked := Picked(t.kids, b);
    forall i | 0 <= i < |picked| ensures Holds(picked[i], live, maxElem, true) {
      assert picked[i] in picked;
      var k :| 0 <= k < 4 && t.kids[k] == picked[i];
      HoldsAtTop(t.kids[k], live, maxElem);
    }
  }

  // A point of the query in the box of an inner node is in the box of a child that is picked.
  lemma PickedAwaited(init: seq<Quad>, t: Quad, live: Live, maxElem: nat, b: Box, p: Box)
    requires t.Inner? && Holds(t, live, maxElem, true) && p == Point(p.minX, p.minY) && Intersect(t.box, p) &&
             Intersect(b, p)
    ensures Awaited(init + Picked(t.kids, b), p)
  {
    var picked := Picked(t.kids, b);
    var k := QuadrantsCover(t.box, p.minX, p.minY);
    MissesInside(t.kids[k].box, p, b);
    assert t.kids[k] in t.kids && t.kids[k] in picked;
    var j :| 0 <= j < |picked| && picked[j] == t.kids[k];
    assert (init + picked)[|init| + j] == t.kids[k];
  }

  lemma PickedNone(kids: seq<Quad>, b: Box)
    ensures Picked(kids[..0], b) == []
  {
  }

  lemma PickedOn(kids: seq<Quad>, i: nat, b: Box)
    requires i < |kids|
    ensures Picked(kids[..i + 1], b) == Picked(kids[..i], b) + (if Intersect(b, kids[i].box) then [kids[i]] else [])
  {
    assert kids[..i + 1][..i] == kids[..i];
  }

  // An inner node is replaced by those of its children that meet the query.
  lemma NodeOpened(ts: seq<Quad>, live: Live, maxElem: nat, q: Query, result: seq<Obj>)
    requires ts != [] && Searching(ts, live, maxElem, q, result) && ts[|ts| - 1].Inner? && AllSound(live)
    requires Sound(q.box) && Sound(q.root) && Intersect(q.box, q.root)
    ensures Searching(ts[..|ts| - 1] + Picked(ts[|ts| - 1].kids, q.box), live, maxElem, q, result)
  {
    hide Picked, Holds;
    var last := |ts| - 1;
    var init, t := ts[..last], ts[last];
    var us := init + Picked(t.kids, q.box);
    assert us == ts[..|ts| - 1] + Picked(ts[|ts| - 1].kids, q.box);
    assert forall i :: 0 <= i < last ==> init[i] == ts[i];
    OpenedHolds(init, t, live, maxElem, q.box);
    forall id | id in live && Matches(q, live[id]) && Intersect(q.root, live[id]) && Obj(id, live[id]) !in result
      ensures Awaited(us, CommonPoint(q, live[id]))
    {
      var p := CommonPoint(q, live[id]);
      var i :| 0 <= i < |ts| && Intersect(ts[i].box, p);
      CommonPointMeets(q, live[id]);
      if i < last { assert us[i] == ts[i]; } else { PickedAwaited(init, t, live, maxElem, q.box, p); }
    }
  }

  // A search starts with the root, on top of what an earlier one has left on the worklist.
  lemma SearchStarts(left: seq<Quad>, root: Quad, live: Live, maxElem: nat, q: Query)
    requires (forall i :: 0 <= i < |left| ==> Holds(left[i], live, maxElem, true)) && Holds(root, live, maxElem, true)
    requires q.root == root.box && AllSound(live) && Sound(q.box) && Intersect(q.box, q.root)
    ensures Searching(left + [root], live, maxElem, q, [])
  {
    forall id | id in live && Matches(q, live[id]) && Intersect(q.root, live[id])
      ensures Awaited(left + [root], CommonPoint(q, live[id]))
    {
      CommonPointMeets(q, live[id]);
      assert (left + [root])[|left|] == root;
    }
  }

  lemma {:induction false} PickedLighter(kids: seq<Quad>, b: Box)
    ensures Weight(Picked(kids, b)) <= Weight(kids)
  {
    if kids != [] {
      var init, last := kids[..|kids| - 1], kids[|kids| - 1];
      PickedLighter(init, b);
      WeightSnoc(Picked(init, b), last);
      WeightSnoc(init, last);
      assert kids == init + [last];
    }
  }

  lemma {:induction false} WeightConcat(ts: seq<Quad>, us: seq<Quad>)
    ensures Weight(ts + us) == Weight(ts) + Weight(us)
  {
    if us == [] {
      assert ts + us == ts;
    } else {
      var init, last := us[..|us| - 1], us[|us| - 1];
      WeightConcat(ts, init);
      WeightSnoc(ts + init, last);
      WeightSnoc(init, last);
      assert ts + us == (ts + init) + [last] && us == init + [last];
    }
  }

  // The worklist gets lighter with every node taken from it.
  lemma Lighter(ts: seq<Quad>, b: Box)
    requires ts != []
    ensures var t := ts[|ts| - 1]; Weight(ts[..|ts| - 1] + (if t.Inner? then Picked(t.kids, b) else [])) < Weight(ts)
  {
    var init, t := ts[..|ts| - 1], ts[|ts| - 1];
    assert ts == init + [t];
    WeightSnoc(init, t);
    if t.Inner? {
      PickedLighter(t.kids, b);
      WeightConcat(init, Picked(t.kids, b));
    } else {
      assert init + [] == init;
    }
  }

  lemma FoundMore(live: Live, q: Query, result: seq<Obj>, o: Obj)
    requires Found(live, q, result) && o.id in live && live[o.id] == o.box && Matches(q, o.box) &&
             o.id !in IdSet(result)
    ensures Found(live, q, result + [o]) && IdSet(result + [o]) == IdSet(result) + {o.id}
  {
    assert forall i :: 0 <= i < |result| ==> result[i] in result;
    assert forall x :: x in result + [o] <==> x in result || x == o;
  }

  lemma KnownFound(live: Live, q: Query, result: seq<Obj>, o: Obj)
    requires Found(live, q, result) && o.id in live && live[o.id] == o.box && o.id in IdSet(result)
    ensures o in result
  {
  }

  lemma MoreFound(ts: seq<Quad>, live: Live, maxElem: nat, q: Query, result: seq<Obj>, result': seq<Obj>)
    requires Searching(ts, live, maxElem, q, result) && Found(live, q, result')
    requires forall o :: o in result ==> o in result'
    ensures Searching(ts, live, maxElem, q, result')
  {
  }

  // The last tree of the worklist has been searched.
  lemma TreeSearched(ts: seq<Quad>, live: Live, maxElem: nat, q: Query, result: seq<Obj>, result': seq<Obj>)
    requires ts != [] && Searching(ts, live, maxElem, q, result) && AllSound(live)
    requires Sound(q.box) && Sound(q.root) && Intersect(q.box, q.root)
    requires Found(live, q, result') && forall o :: o in result ==> o in result'
    requires var t := ts[|ts| - 1]; t.Leaf? ==> forall o :: o in t.objs && Matches(q, o.box) ==> o in result'
    ensures var t, left := ts[|ts| - 1], ts[..|ts| - 1];
            Searching(left + (if t.Inner? then Picked(t.kids, q.box) else []), live, maxElem, q, result')
  {
    if ts[|ts| - 1].Inner? {
      MoreFound(ts, live, maxElem, q, result, result');
      NodeOpened(ts, live, maxElem, q, result');
    } else {
      LeafSearched(ts, live, maxElem, q, result, result');
      assert ts[..|ts| - 1] + [] == ts[..|ts| - 1];
    }
  }

  lemma SearchEnds(live: Live, maxElem: nat, q: Query, result: seq<Obj>)
    requires Searching([], live, maxElem, q, result)
    ensures forall id :: id in live && Matches(q, live[id]) && Intersect(q.root, live[id]) ==>
      Obj(id, live[id]) in result
  {
  }
}
