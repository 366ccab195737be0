// Runs of an R-tree: after any sequence of insertions and removals a query answers like a scan of all the
// live objects.
module RectRuns {
  import opened Geometry
  import opened RectEdit
  import opened RectNodes
  import opened RectQuery
  import opened RectShape
  import opened RectTrees
  import opened SpatialIndex

  // A run without removals in which no id is inserted twice.
  ghost predicate OnlyNew(ops: seq<Op>) {
    forall i :: 0 <= i < |ops| ==> !ops[i].Remove? && (ops[i].Insert? ==> ops[i].id !in LiveAfter(ops[..i]))
  }

  method Run(maxElem: nat, ops: seq<Op>) returns (t: RectTree, answers: seq<seq<int>>)
    requires forall op :: op in ops && op.Insert? ==> Proper(op.box)
    ensures t.Valid() && t.view == LiveAfter(ops) && |answers| == |ops|
    ensures forall i :: 0 <= i < |ops| && ops[i].Collide? ==>
      Answers(LiveAfter(ops[..i]), ops[i].box, ops[i].check, ops[i].limit, answers[i])
    ensures OnlyNew(ops) ==> AtLeast(t.shape, t.root, t.minElem)
  {
    t := new RectTree(maxElem);
    answers := [];
    var i := 0;
    while i < |ops|
      invariant i <= |ops| && Ready(t, LiveAfter(ops[..i])) && |answers| == i && fresh(t) && fresh(t.shape.Keys)
      invariant Answered(ops, answers, i)
      invariant OnlyNew(ops) ==> AtLeast(t.shape, t.root, t.minElem)
    {
      LiveStep(ops, i);
      LiveIdsPositive(ops[..i]);
      var ids := Perform(t, ops[i]);
      AnsweredMore(ops, answers, ids);
      answers := answers + [ids];
      i := i + 1;
    }
    assert ops[..i] == ops;
  }

  ghost predicate Ready(t: RectTree, live: map<int, Box>)
    reads t, t.shape.Keys
  {
    t.Valid() && t.view == live
  }

  method Perform(t: RectTree, op: Op) returns (ids: seq<int>)
    requires t.Valid() && (op.Insert? ==> Proper(op.box)) && forall id :: id in t.view ==> id > 0
    modifies t, t.shape.Keys
    ensures fresh(t.shape.Keys - old(t.shape.Keys))
    ensures Ready(t, After(old(t.view), op))
    ensures op.Collide? ==> Answers(old(t.view), op.box, op.check, op.limit, ids)
    ensures !op.Remove? && (op.Insert? ==> op.id !in old(t.view)) && old(AtLeast(t.shape, t.root, t.minElem)) ==>
      AtLeast(t.shape, t.root, t.minElem)
  {
    ids := [];
    match op
    case Insert(id, box) => var r := t.Insert(id, box);
    case Remove(id) => var r := t.Remove(id);
    case Collide(box, check, limit) =>
      var found := t.Collide(box, limit, check);
      ids := IdsOf(t, found, box, check, limit);
  }

  method IdsOf(t: RectTree, found: seq<RectNode>, ghost box: Box, ghost check: Check, ghost limit: nat)
    returns (ids: seq<int>)
    requires t.Valid() && AllMatch(t.shape, box, check, found) && (limit > 0 ==> |found| <= limit)
    requires limit == 0 || |found| < limit ==> forall e :: e in t.shape && Match(t.shape, box, check, e) ==> e in found
    ensures Answers(t.view, box, check, limit, ids)
  {
    ids := [];
    var k := 0;
    while k < |found|
      invariant k <= |found| && |ids| == k
      invariant forall j :: 0 <= j < k ==> found[j] in t.shape && ids[j] == t.shape[found[j]].id
    {
      assert found[k] in found;
      ids := ids + [found[k].id];
      k := k + 1;
    }
    IdsAnswer(t.shape, t.objs, t.view, found, ids, box, check, limit);
  }

  lemma IdsAnswer(sh: Shape, objs: map<int, RectNode>, view: map<int, Box>, found: seq<RectNode>, ids: seq<int>,
                  box: Box, check: Check, limit: nat)
    requires Indexed(sh, objs, view) && AllMatch(sh, box, check, found) && (limit > 0 ==> |found| <= limit)
    requires limit == 0 || |found| < limit ==> forall e :: e in sh && Match(sh, box, check, e) ==> e in found
    requires |ids| == |found| && forall j :: 0 <= j < |found| ==> found[j] in sh && ids[j] == sh[found[j]].id
    ensures Answers(view, box, check, limit, ids)
  {
    forall j | 0 <= j < |ids|
      ensures ids[j] in view && objs[ids[j]] == found[j] && Intersect(box, view[ids[j]]) && check(view[ids[j]])
    {
      assert Match(sh, box, check, found[j]);
    }
    if limit == 0 || |ids| < limit {
      forall id | id in view && Intersect(box, view[id]) && check(view[id]) ensures id in ids {
        var e := objs[id];
        assert Match(sh, box, check, e) && e in found;
        var j :| 0 <= j < |found| && found[j] == e;
        assert ids[j] == id;
      }
    }
  }
}
