// What a spatial index is for: it answers like a scan of all live objects.
module SpatialIndex {
  import opened Geometry
  import opened Sequences

  // The further test a query makes on a box that meets its own.
  type Check = Box -> bool

  datatype Op = Insert(id: int, box: Box) | Remove(id: int) | Collide(box: Box, check: Check, limit: nat)

  // What one operation does to the live objects; the last box counts.
  function After(live: map<int, Box>, op: Op): map<int, Box> {
    match op
    case Insert(id, box) => if id > 0 then live[id := box] else live
    case Remove(id) => live - {id}
    case Collide(_, _, _) => live
  }

  // The live objects are those inserted and not removed since.
  function LiveAfter(ops: seq<Op>): map<int, Box> {
    if ops == [] then map[] else After(LiveAfter(ops[..|ops| - 1]), ops[|ops| - 1])
  }

  // The operation puts the object somewhere, or takes it away.
  predicate Concerns(op: Op, id: int) {
    (op.Insert? && op.id == id && id > 0) || (op.Remove? && op.id == id)
  }

  // That is, an object is live with a box just if the last operation that concerns it put it there.
  lemma {:induction false} LiveIff(ops: seq<Op>, id: int, box: Box)
    ensures id in LiveAfter(ops) && LiveAfter(ops)[id] == box <==>
      exists i :: 0 <= i < |ops| && ops[i] == Insert(id, box) && Concerns(ops[i], id) &&
        forall j :: i < j < |ops| ==> !Concerns(ops[j], id)
  {
    if ops != [] {
      var n := |ops| - 1;
      LiveIff(ops[..n], id, box);
      if !Concerns(ops[n], id) {
        assert forall i :: 0 <= i < n ==> ops[..n][i] == ops[i];
      }
    }
  }

  lemma LiveStep(ops: seq<Op>, i: nat)
    requires i < |ops|
    ensures LiveAfter(ops[..i + 1]) == After(LiveAfter(ops[..i]), ops[i])
  {
    assert ops[..i + 1][..i] == ops[..i];
  }

  lemma {:induction false} LiveIdsPositive(ops: seq<Op>)
    ensures forall id :: id in LiveAfter(ops) ==> id > 0
  {
    if ops != [] { LiveIdsPositive(ops[..|ops| - 1]); }
  }

  // The answer of a scan: the matching ids, each once, all of them unless the limit is reached.
  ghost predicate Answers(live: map<int, Box>, box: Box, check: Check, limit: nat, ids: seq<int>) {
    && NoDup(ids) && (forall id :: id in ids ==> id in live && Intersect(box, live[id]) && check(live[id]))
    && (limit > 0 ==> |ids| <= limit)
    && (limit == 0 || |ids| < limit ==> forall id :: id in live && Intersect(box, live[id]) && check(live[id]) ==>
          id in ids)
  }

  // Of boxes that are not inside out these are the objects that have a point in common with the query.
  lemma AnswersByPoints(live: map<int, Box>, box: Box, check: Check, ids: seq<int>)
    requires Answers(live, box, check, 0, ids) && Sound(box) && forall id :: id in live ==> Sound(live[id])
    ensures forall id :: id in ids <==>
      id in live && check(live[id]) && exists x, y :: In(x, y, box) && In(x, y, live[id])
  {
    forall id | id in live
      ensures Intersect(box, live[id]) <==> exists x, y :: In(x, y, box) && In(x, y, live[id])
    {
      IntersectIff(box, live[id]);
    }
  }

  // The first n operations' queries were answered like a scan of what was live then.
  ghost predicate Answered(ops: seq<Op>, answers: seq<seq<int>>, n: nat)
    requires n <= |ops| && n <= |answers|
  {
    forall i :: 0 <= i < n && ops[i].Collide? ==>
      Answers(LiveAfter(ops[..i]), ops[i].box, ops[i].check, ops[i].limit, answers[i])
  }

  lemma AnsweredMore(ops: seq<Op>, answers: seq<seq<int>>, ids: seq<int>)
    requires |answers| < |ops| && Answered(ops, answers, |answers|)
    requires var op := ops[|answers|]; op.Collide? ==>
      Answers(LiveAfter(ops[..|answers|]), op.box, op.check, op.limit, ids)
    ensures Answered(ops, answers + [ids], |answers| + 1)
  {
    assert forall j :: 0 <= j < |answers| ==> (answers + [ids])[j] == answers[j];
  }
}
