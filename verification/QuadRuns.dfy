// Runs of a quadtree: after any sequence of insertions, removals and complete queries, a query that meets
// the root box answers like a scan of all the live objects, if these meet the root box too.
module QuadRuns {
  import opened Geometry
  import opened QuadQuery
  import opened QuadShape
  import opened QuadTrees
  import opened SpatialIndex

  // Every insertion ends, and all objects and queries meet the root box.
  ghost predicate Fitting(ops: seq<Op>, root: Box, maxElem: nat) {
    && (forall op :: op in ops ==>
          match op
          case Insert(_, box) => Sound(box) && Intersect(root, box)
          case Remove(_) => true
          case Collide(box, _, limit) => Sound(box) && Intersect(root, box) && limit == 0)
    && forall i :: 0 <= i <= |ops| ==> Manageable(LiveAfter(ops[..i]), root, maxElem)
  }

  // What is live after the first n operations meets the root box.
  lemma {:induction false} LiveMeetsRoot(ops: seq<Op>, n: nat, root: Box)
    requires n <= |ops| && forall op :: op in ops && op.Insert? ==> Intersect(root, op.box)
    ensures forall id :: id in LiveAfter(ops[..n]) ==> id > 0 && Intersect(root, LiveAfter(ops[..n])[id])
  {
    if n > 0 {
      LiveStep(ops, n - 1);
      assert ops[n - 1] in ops;
      LiveMeetsRoot(ops, n - 1, root);
    }
  }

  method Run(root: Box, maxElem: nat, ops: seq<Op>) returns (t: QuadTree, answers: seq<seq<int>>)
    requires Sound(root) && Fitting(ops, root, if maxElem < 4 then 4 else maxElem)
    ensures t.Valid() && t.view == LiveAfter(ops) && t.cache == [] && |answers| == |ops|
    ensures forall i :: 0 <= i < |ops| && ops[i].Collide? ==>
      Answers(LiveAfter(ops[..i]), ops[i].box, ops[i].check, ops[i].limit, answers[i])
  {
    t := new QuadTree(root, maxElem);
    answers := [];
    var i := 0;
    while i < |ops|
      invariant i <= |ops| && Ready(t, root, maxElem, LiveAfter(ops[..i])) && |answers| == i && fresh(t) &&
                fresh(t.root.repr)
      invariant Answered(ops, answers, i)
    {
      assert ops[i] in ops && Manageable(LiveAfter(ops[..i + 1]), root, if maxElem < 4 then 4 else maxElem);
      LiveStep(ops, i);
      LiveMeetsRoot(ops, i, root);
      var ids := Perform(t, ops[i], root, maxElem, LiveAfter(ops[..i]));
      AnsweredMore(ops, answers, ids);
      answers := answers + [ids];
      i := i + 1;
    }
    assert ops[..i] == ops;
  }

  ghost predicate Ready(t: QuadTree, root: Box, maxElem: nat, live: map<int, Box>)
    reads t, t.root, t.root.repr
  {
    t.Valid() && t.view == live && t.cache == [] && t.root.box == root && t.maxElem == if maxElem < 4 then 4
    else maxElem
  }

  method Perform(t: QuadTree, op: Op, ghost root: Box, ghost maxElem: nat, ghost live: map<int, Box>)
    returns (ids: seq<int>)
    requires Ready(t, root, maxElem, live) && Sound(root) && Manageable(After(live, op), root, t.maxElem)
    requires forall id :: id in live ==> id > 0 && Intersect(root, live[id])
    requires match op
      case Insert(id, box) => Sound(box)
      case Remove(id) => true
      case Collide(box, _, limit) => Sound(box) && Intersect(root, box) && limit == 0
    modifies t, t.root.repr
    ensures Ready(t, root, maxElem, After(live, op)) && t.root == old(t.root) && fresh(t.root.repr - old(t.root.repr))
    ensures op.Collide? ==> Answers(live, op.box, op.check, op.limit, ids)
  {
    hide QuadTree.Valid, Manageable;
    ids := [];
    match op
    case Insert(id, box) => var ok := t.Insert(id, box);
    case Remove(id) =>
      assert id <= 0 ==> live - {id} == live;
      var ok := t.Remove(id);
    case Collide(box, check, _) =>
      var found := t.Collide(box, 0, check);
      ids := IdsOf(found);
      IdsAnswer(live, Query(box, check, 0, root), found, ids);
  }

  method IdsOf(found: seq<Obj>) returns (ids: seq<int>)
    ensures |ids| == |found| && forall k :: 0 <= k < |ids| ==> ids[k] == found[k].id
  {
    ids := [];
    var k := 0;
    while k < |found|
      invariant k <= |found| && |ids| == k && forall j :: 0 <= j < k ==> ids[j] == found[j].id
    {
      ids := ids + [found[k].id];
      k := k + 1;
    }
  }

  lemma IdsAnswer(live: map<int, Box>, q: Query, found: seq<Obj>, ids: seq<int>)
    requires Found(live, q, found) && |ids| == |found| && forall k :: 0 <= k < |ids| ==> ids[k] == found[k].id
    requires forall id :: id in live && Intersect(q.box, live[id]) && q.check(live[id]) ==> Obj(id, live[id]) in found
    ensures Answers(live, q.box, q.check, 0, ids)
  {
    forall k | 0 <= k < |ids| ensures ids[k] in live && Intersect(q.box, live[ids[k]]) && q.check(live[ids[k]]) {
      assert found[k] in found;
    }
    forall id | id in live && Intersect(q.box, live[id]) && q.check(live[id]) ensures id in ids {
      var k :| 0 <= k < |found| && found[k] == Obj(id, live[id]);
      assert ids[k] == id;
    }
  }
}
