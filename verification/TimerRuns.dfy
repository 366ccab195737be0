// Whole runs: the timing wheel and the sorted container answer every run of calls alike; and what becomes of a
// timer from one call to the next.
module TimerRuns {
  import opened Arithmetic
  import opened Placement
  import opened TimerNodes
  import opened TimerSpec
  import opened TimerLaws
  import opened RBTimers
  import opened TWTimers
  import opened WheelQueues

  datatype Op =
    | Add(callable: bool, kind: int, start: int, interval: int, times: int, fromNow: bool)
    | Remove(id: int)
    | Advance(delta: int)

  // The state after one call, and what the call returns (1 or 0 for a truth value, 0 for nothing).
  ghost function Step(st: Timers, op: Op, cb: Callback): (Timers, int)
    requires LiveOk(st.live)
  {
    match op
    case Add(callable, kind, start, interval, times, fromNow) =>
      Added(st, callable, kind, start, interval, times, fromNow)
    case Remove(id) => var r := Removed(st, id); (r.0, if r.1 then 1 else 0)
    case Advance(delta) => (Updated(st, delta, cb), 0)
  }

  // What keeps a call clear of the 32-bit offset of n wheels with s slots: it harms neither the deadline of a timer
  // that is added, nor any during an update.
  ghost predicate InReach(st: Timers, op: Op, s: nat, n: nat)
    requires s >= 1
  {
    match op
    case Add(callable, kind, start, interval, times, fromNow) =>
      || Added(st, callable, kind, start, interval, times, fromNow).1 == 0
      || (st.now >= 0 && CutHarmless(st.now + start, st.now, s, n))
    case Remove(_) => true
    case Advance(delta) => Near(st.live, st.now, st.now + delta, s, n)
  }

  ghost predicate RunInReach(st: Timers, ops: seq<Op>, cb: Callback, s: nat, n: nat)
    requires s >= 1 && Ok(st)
    decreases |ops|
  {
    ops == [] || (InReach(st, ops[0], s, n) &&
                  (StepOk(st, ops[0], cb); RunInReach(Step(st, ops[0], cb).0, ops[1..], cb, s, n)))
  }

  // A condition a caller can check, whatever the wheels: less than 2^32 ticks ahead.
  lemma ShortReach(st: Timers, op: Op, s: nat, n: nat)
    requires s >= 1 && st.now >= 0
    requires match op
      case Add(_, _, start, _, _, _) => start < WORD
      case Remove(_) => true
      case Advance(delta) =>
        && (forall x :: x in st.live ==> st.live[x].next - st.now < WORD)
        && forall x :: x in st.live && st.live[x].next <= st.now + delta && st.live[x].left != 1 ==>
             st.live[x].interval + delta < WORD
    ensures InReach(st, op, s, n)
  {
    match op
    case Add(_, _, start, _, _, _) => NearIsHarmless(st.now + start, st.now, s, n);
    case Remove(_) =>
    case Advance(delta) => AllNear(st.live, st.now, st.now + delta, s, n);
  }

  // The state and the results of a run of calls.
  ghost function Play(st: Timers, ops: seq<Op>, cb: Callback): (Timers, seq<int>)
    requires Ok(st)
    decreases |ops|
  {
    if ops == [] then (st, [])
    else
      StepOk(st, ops[0], cb);
      var r := Step(st, ops[0], cb);
      var rest := Play(r.0, ops[1..], cb);
      (rest.0, [r.1] + rest.1)
  }

  lemma StepOk(st: Timers, op: Op, cb: Callback)
    requires Ok(st)
    ensures Ok(Step(st, op, cb).0)
  {
    if op.Advance? { UpdateOk(st, op.delta, cb); }
  }

  // An update leaves no timer with its deadline behind it.
  lemma NeverLate(st: Timers, delta: int, cb: Callback)
    requires Ok(st) && delta > 0
    ensures forall id :: id in Updated(st, delta, cb).live ==> Updated(st, delta, cb).live[id].next > st.now + delta
  {
  }

  // A timer is added just if it can be called, has a count and a period, its first deadline is not too early, and
  // the next id is free. It gets that id and the count it was asked for, and nothing else changes.
  lemma AddIs(st: Timers, add: Op, cb: Callback)
    requires Ok(st) && add.Add?
    ensures var (a, r) := Step(st, add, cb);
            var id := if st.lastId == MAX_ID then 1 else st.lastId + 1;
            && r == (if add.callable && add.times != 0 && add.interval > 0 && add.start + add.interval > 0 &&
                        id !in st.live then id else 0)
            && a.lastId == (if add.callable && add.times != 0 && add.start + add.interval > 0 then id else st.lastId)
            && a.now == st.now
            && a.live.Keys == st.live.Keys + (if r != 0 then {id} else {})
            && a.calls.Keys == st.calls.Keys + (if r != 0 then {id} else {})
            && (forall x :: x in st.live ==> a.live[x] == st.live[x])
            && (forall x :: x in st.calls ==> a.calls[x] == st.calls[x])
            && (r != 0 ==>
                  && a.live[id] == Timer(id, add.kind, st.now + add.start, add.interval, add.times, add.fromNow)
                  && (id !in st.calls ==> a.calls[id] == []))
  {
  }

  // After the next update the timer has been called as often as it owes, and is there just if that was not all.
  lemma AddThenAdvance(st: Timers, add: Op, delta: int, cb: Callback) returns (f: seq<int>)
    requires Ok(st) && add.Add? && delta > 0 && Step(st, add, cb).1 != 0 && Ok(Step(st, add, cb).0)
    ensures var (a, id) := Step(st, add, cb);
            var b := Step(a, Advance(delta), cb).0;
            var t := Timer(id, add.kind, st.now + add.start, add.interval, add.times, add.fromNow);
            && Owes(t, st.now + delta, cb, f)
            && b.calls[id] == (if id in st.calls then st.calls[id] else []) + f
            && (id in b.live <==> !Over(t, f, cb))
            && (id in b.live ==> b.live[id] == t.(next := Deadline(t, |f|, b.now), left := Remaining(t, |f|)))
  {
    hide Owes, Over;
    var (a, id) := Step(st, add, cb);
    f := UpdateOwes(a, delta, cb, id);
  }

  // A timer with a count, at a fixed rate and never refused, fires that often, or as often as it is due.
  lemma AddThenCount(st: Timers, add: Op, delta: int, cb: Callback)
    requires Ok(st) && add.Add? && delta > 0 && add.times > 0 && !add.fromNow && Step(st, add, cb).1 != 0
    requires forall left :: cb(Step(st, add, cb).1, add.kind, left)
    ensures var (a, id) := Step(st, add, cb);
            var due := if add.start > delta then 0 else (delta - add.start) / add.interval + 1;
            var b := Step(a, Advance(delta), cb).0;
            && |b.calls[id]| == |a.calls[id]| + (if add.times < due then add.times else due)
            && (id in b.live <==> add.times > due)
            && (id in b.live ==>
                  b.live[id].left == add.times - due && b.live[id].next == st.now + add.start + due * add.interval)
  {
    var (a, id) := Step(st, add, cb);
    FixedRate(a.live[id], st.now + delta, cb);
  }

  // A removal says whether there was such a timer, leaves the others alone, and no update calls the timer again.
  lemma RemoveThenAdvance(st: Timers, id: int, delta: int, cb: Callback)
    requires Ok(st)
    ensures var (a, r) := Step(st, Remove(id), cb);
            && Ok(a) && a.now == st.now && a.lastId == st.lastId && a.calls == st.calls
            && r == (if id in st.live then 1 else 0)
            && id !in a.live && (forall x :: x != id ==> (x in a.live <==> x in st.live))
            && (forall x :: x in a.live ==> a.live[x] == st.live[x])
            && var b := Step(a, Advance(delta), cb).0;
               id !in b.live && (id in st.calls ==> b.calls[id] == st.calls[id])
  {
    var a := Step(st, Remove(id), cb).0;
    UpdateKeeps(a, delta, cb);
  }

  ghost predicate Alike(tw: TWTimer, rb: RBTimer)
    reads tw, tw.repr, tw.wheels, rb, rb.repr
  {
    && tw.Valid() && rb.Valid() && tw.Located() && tw.repr !! rb.repr
    && tw.callback == rb.callback && tw.view == rb.view
  }

  // The same calls made on both containers give the same results, the same timers with the same
  // deadlines and counts, and the same callbacks for each timer.
  method Lockstep(tw: TWTimer, rb: RBTimer, ops: seq<Op>) returns (onWheel: seq<int>, onSorted: seq<int>)
    requires Alike(tw, rb) && RunInReach(tw.view, ops, tw.callback, tw.s, |tw.wheels|)
    modifies tw, tw.repr, tw.wheels, rb, rb.repr
    ensures Alike(tw, rb) && onWheel == onSorted
    ensures (tw.view, onWheel) == Play(old(tw.view), ops, tw.callback)
    decreases |ops|
  {
    if ops == [] { return [], []; }
    var a, b := Both(tw, rb, ops[0]);
    var rest0, rest1 := Lockstep(tw, rb, ops[1..]);
    return [a] + rest0, [b] + rest1;
  }

  // New nodes only.
  twostate predicate Grown(tw: TWTimer, rb: RBTimer, wheelNodes: set<TimerNode>, sortedNodes: set<TimerNode>)
    reads tw, rb
  {
    tw.repr >= wheelNodes && fresh(tw.repr - wheelNodes) && rb.repr >= sortedNodes && fresh(rb.repr - sortedNodes)
  }

  method Both(tw: TWTimer, rb: RBTimer, op: Op) returns (onWheel: int, onSorted: int)
    requires Alike(tw, rb) && InReach(tw.view, op, tw.s, |tw.wheels|)
    modifies tw, tw.repr, tw.wheels, rb, rb.repr
    ensures Alike(tw, rb) && onWheel == onSorted
    ensures (tw.view, onWheel) == Step(old(tw.view), op, tw.callback) && Grown(tw, rb, old(tw.repr), old(rb.repr))
  {
    match op {
      case Add(_, _, _, _, _, _) => onWheel, onSorted := BothAdd(tw, rb, op);
      case Remove(_) => onWheel, onSorted := BothRemove(tw, rb, op);
      case Advance(_) => onWheel, onSorted := BothUpdate(tw, rb, op);
    }
  }

  method BothAdd(tw: TWTimer, rb: RBTimer, op: Op) returns (onWheel: int, onSorted: int)
    requires Alike(tw, rb) && op.Add? && InReach(tw.view, op, tw.s, |tw.wheels|)
    modifies tw, tw.repr, tw.wheels, rb, rb.repr
    ensures Alike(tw, rb) && onWheel == onSorted
    ensures (tw.view, onWheel) == Step(old(tw.view), op, tw.callback) && Grown(tw, rb, old(tw.repr), old(rb.repr))
  {
    hide TWTimer.Valid, RBTimer.Valid, TWTimer.Located, CutHarmless, Added;
    ReachIsHarmless(tw, op);
    onWheel := tw.AddTimer(op.callable, op.kind, op.start, op.interval, op.times, op.fromNow);
    onSorted := rb.AddTimer(op.callable, op.kind, op.start, op.interval, op.times, op.fromNow);
  }

  lemma ReachIsHarmless(tw: TWTimer, op: Op)
    requires tw.Valid() && op.Add? && InReach(tw.view, op, tw.s, |tw.wheels|)
    ensures tw.now >= 0 && tw.s >= 1
    ensures Added(tw.view, op.callable, op.kind, op.start, op.interval, op.times, op.fromNow).1 == 0 ||
            CutHarmless(tw.now + op.start, tw.now, tw.s, |tw.wheels|)
  {
  }

  method BothRemove(tw: TWTimer, rb: RBTimer, op: Op) returns (onWheel: int, onSorted: int)
    requires Alike(tw, rb) && op.Remove?
    modifies tw, tw.repr, tw.wheels, rb, rb.repr
    ensures Alike(tw, rb) && onWheel == onSorted
    ensures (tw.view, onWheel) == Step(old(tw.view), op, tw.callback) && Grown(tw, rb, old(tw.repr), old(rb.repr))
  {
    var a := tw.RemoveTimer(op.id);
    var b := rb.RemoveTimer(op.id, {});
    onWheel, onSorted := if a then 1 else 0, if b then 1 else 0;
  }

  method BothUpdate(tw: TWTimer, rb: RBTimer, op: Op) returns (onWheel: int, onSorted: int)
    requires Alike(tw, rb) && op.Advance? && InReach(tw.view, op, tw.s, |tw.wheels|)
    modifies tw, tw.repr, tw.wheels, rb, rb.repr
    ensures Alike(tw, rb) && onWheel == onSorted
    ensures (tw.view, onWheel) == Step(old(tw.view), op, tw.callback) && Grown(tw, rb, old(tw.repr), old(rb.repr))
  {
    tw.Update(op.delta);
    rb.Update(op.delta);
    onWheel, onSorted := 0, 0;
  }
}
