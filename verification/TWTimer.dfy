// The hierarchical timing wheel.
module TWTimers {
  import opened Arithmetic
  import opened Placement
  import opened TimerNodes
  import opened TimerSpec
  import opened WheelQueues
  import opened WheelTicks

  // One wheel: a clock that moves in steps, and one list of timer ids for each slot.
  class TimerWheel {
    const stepInterval: int
    const stepCount: nat
    var now: int
    var steps: seq<seq<int>>

    ghost predicate Valid()
      reads this
    {
      stepInterval > 0 && stepCount > 0 && |steps| == stepCount && now >= 0
    }

    constructor (stepInterval: int, stepCount: nat)
      requires stepInterval > 0 && stepCount > 0
      ensures Valid() && this.stepInterval == stepInterval && this.stepCount == stepCount
      ensures now == 0 && steps == seq(stepCount, _ => [])
    {
      this.stepInterval, this.stepCount := stepInterval, stepCount;
      now, steps := 0, seq(stepCount, _ => []);
    }

    // Files the timer if its deadline is less than one turn ahead. The offset is a 32-bit number.
    method AddTimer(id: int, next: int) returns (ok: bool)
      requires Valid()
      modifies this`steps
      ensures Valid() && ok == (Offset(next, now, stepInterval) < stepCount)
      ensures var k := SlotIndex(next, now, stepInterval, stepCount);
              steps == if ok then old(steps)[k := old(steps)[k] + [id]] else old(steps)
    {
      var offset := 0;
      var current := now / stepInterval;
      if next > now {
        offset := (next / stepInterval - current) % WORD;
        if offset >= stepCount { return false; }
      }
      offset := (offset + current) % stepCount;
      steps := steps[offset := steps[offset] + [id]];
      return true;
    }

    function GetNextTime(): int
      reads this
    {
      now + stepInterval
    }

    method NextTime()
      modifies this`now
      ensures now == old(now) + stepInterval
    {
      now := now + stepInterval;
    }

    function CurrentStep(): (k: nat)
      requires Valid()
      reads this
      ensures k < stepCount
    {
      now / stepInterval % stepCount
    }

    predicate IsNextWheel()
      requires Valid()
      reads this
    {
      now / stepInterval % stepCount == 0
    }
  }

  class TWTimer {
    const callback: Callback
    const s: nat
    const wheels: seq<TimerWheel>
    var now: int
    var overflow: seq<int>
    var nodes: map<int, TimerNode>
    var links: map<int, Place>  // the list each node's links thread it into
    var lastId: int
    ghost var view: Timers
    ghost var q: Queues
    ghost var clocks: seq<int>
    ghost var repr: set<TimerNode>

    // The ghost view is the real state of the timers. Those in out are being fired.
    ghost predicate Sound(out: set<int>)
      reads this`now, this`nodes, this`lastId, this`view, this`repr, repr
    {
      && view.now == now && view.lastId == lastId && 0 <= lastId <= MAX_ID
      && view.live.Keys == nodes.Keys && view.live.Keys <= view.calls.Keys
      && LiveOkBut(view.live, out)
      && (forall id :: id in nodes ==> nodes[id] in repr && nodes[id].Rec() == view.live[id] && !nodes[id].calling)
    }

    // The ghost queues and clocks are those of the wheels; list is the local list of a cascade.
    ghost predicate Wired(list: seq<int>)
      reads this`q, this`links, this`overflow, this`clocks, wheels
    {
      && |wheels| >= 2 && 1 <= s < WORD
      && |q.steps| == |wheels| == |clocks|
      && (forall i, j :: 0 <= i < j < |wheels| ==> wheels[i] != wheels[j])
      && (forall i :: 0 <= i < |wheels| ==> Turns(wheels[i], i))
      && q.overflow == overflow && q.loose == list
      && Threaded(q, links)
    }

    ghost predicate Turns(w: TimerWheel, i: nat)
      requires i < |q.steps| && i < |clocks| && s >= 1
      reads this`q, this`clocks, w
    {
      w.Valid() && w.stepInterval == Pow(s, i) && w.stepCount == s && w.steps == q.steps[i] && w.now == clocks[i]
    }

    ghost predicate Valid()
      reads this, repr, wheels
    {
      && Sound({}) && Wired([]) && links.Keys == view.live.Keys
      && now >= 0 && SyncedBelow(clocks, now, s, |wheels|)
    }

    // Every live timer is in the list its deadline calls for.
    ghost predicate Located()
      reads this`links, this`view, this`now
    {
      now >= 0 && s >= 1 && links.Keys <= view.live.Keys && AllGood(links, view.live, now, s, |wheels|)
    }

    static method BuildWheels(wheelCount: nat, stepCount: nat) returns (ws: seq<TimerWheel>)
      requires stepCount >= 1
      ensures |ws| == wheelCount && fresh(ws) && (forall j, k :: 0 <= j < k < |ws| ==> ws[j] != ws[k])
      ensures forall j :: 0 <= j < |ws| ==> Unused(ws[j], j, stepCount)
    {
      ws := [];
      var interval := 1;
      for i := 0 to wheelCount
        invariant |ws| == i && interval == Pow(stepCount, i)
        invariant fresh(ws) && forall j, k :: 0 <= j < k < i ==> ws[j] != ws[k]
        invariant forall j :: 0 <= j < i ==> Unused(ws[j], j, stepCount)
      {
        var w := new TimerWheel(interval, stepCount);
        ws := ws + [w];
        PowStep(stepCount, i);
        interval := interval * stepCount;
      }
    }

    static ghost predicate Unused(w: TimerWheel, i: nat, stepCount: nat)
      requires stepCount >= 1
      reads w
    {
      w.Valid() && w.stepInterval == Pow(stepCount, i) && w.stepCount == stepCount
      && w.now == 0 && w.steps == seq(stepCount, _ => [])
    }

    // No deadline is harmed by the 32-bit cut during an update by delta.
    ghost predicate InHorizon(delta: int)
      reads this`view
    {
      s >= 1 && Near(view.live, view.now, view.now + delta, s, |wheels|)
    }

    constructor (callback: Callback, wheelCount: nat, stepCount: nat)
      requires wheelCount >= 2 && 1 <= stepCount < WORD
      ensures Valid() && Located() && repr == {} && fresh(wheels)
      ensures this.callback == callback && s == stepCount && |wheels| == wheelCount &&
              view == Timers(0, map[], 0, map[])
    {
      this.callback, this.s := callback, stepCount;
      now, overflow, nodes, links, lastId := 0, [], map[], map[], 0;
      view, repr := Timers(0, map[], 0, map[]), {};
      q := Queues(seq(wheelCount, _ => seq(stepCount, _ => [])), [], []);
      clocks := seq(wheelCount, _ => 0);
      var ws := BuildWheels(wheelCount, stepCount);
      wheels := ws;
      new;
      forall i | 0 <= i < |wheels| ensures Synced(clocks, 0, s, i) {
        assert 0 / Pow(s, i) * Pow(s, i) == 0;
      }
    }

    // Offers the timer to the wheels in turn; what all refuse waits in the overflow list.
    method AddTimerNode(timer: TimerNode)
      requires Wired(q.loose) && timer.id !in links
      modifies this`q, this`links, this`overflow, wheels
      ensures Wired(q.loose)
      ensures Pushed(old(q), old(links), q, links, timer.id, FileFrom(timer.next, clocks, s, 0))
    {
      for i := 0 to |wheels|
        invariant Wired(q.loose) && q == old(q) && links == old(links) && overflow == old(overflow)
        invariant FileFrom(timer.next, clocks, s, 0) == FileFrom(timer.next, clocks, s, i)
      {
        var ok := AddToWheel(i, timer);
        if ok { return; }
      }
      PushOverflow(timer);
    }

    method PushOverflow(timer: TimerNode)
      requires Wired(q.loose) && timer.id !in links
      modifies this`q, this`links, this`overflow
      ensures Wired(q.loose) && Pushed(old(q), old(links), q, links, timer.id, Overflow)
    {
      overflow, links := overflow + [timer.id], links[timer.id := Overflow];
      PushThreaded(q, old(links), Overflow, timer.id);
      q := Put(q, Overflow, overflow);
      assert forall j :: 0 <= j < |wheels| ==> Turns(wheels[j], j);
    }

    method AddToWheel(i: nat, timer: TimerNode) returns (ok: bool)
      requires i < |wheels| && Wired(q.loose) && timer.id !in links
      modifies this`q, this`links, wheels
      ensures Wired(q.loose) && ok == (Offset(timer.next, clocks[i], Pow(s, i)) < s)
      ensures ok ==> Pushed(old(q), old(links), q, links, timer.id,
        Slot(i, SlotIndex(timer.next, clocks[i], Pow(s, i), s)))
      ensures !ok ==> q == old(q) && links == old(links)
    {
      assert Turns(wheels[i], i);
      ok := wheels[i].AddTimer(timer.id, timer.next);
      if ok {
        var p := Slot(i, SlotIndex(timer.next, wheels[i].now, wheels[i].stepInterval, s));
        links := links[timer.id := p];
        PushThreaded(q, old(links), p, timer.id);
        q := Put(q, p, At(q, p) + [timer.id]);
      }
      assert forall j :: 0 <= j < |wheels| ==> Turns(wheels[j], j);
    }

    // A deadline is filed well exactly when no wheel mistakes it for a near one (CutHarmless).
    method AddTimer(callable: bool, kind: int, start: int, interval: int, times: int, fromNow: bool) returns (r: int)
      requires Valid()
      modifies this, wheels
      ensures Valid() && repr >= old(repr) && fresh(repr - old(repr)) && now == old(now)
      ensures (view, r) == Added(old(view), callable, kind, start, interval, times, fromNow)
      ensures old(Located()) ==> (Located() <==> r == 0 || CutHarmless(now + start, now, s, |wheels|))
    {
      hide Valid, Located, CutHarmless;
      if !callable || times == 0 || start + interval <= 0 { return 0; }
      var timer, ok := NewTimer(kind, start, interval, times, fromNow);
      if !ok || lastId in nodes { return 0; }
      ghost var t := timer.Rec();
      Admit(timer, t);
      return lastId;
    }

    // Takes the next id and a node from the pool.
    method NewTimer(kind: int, start: int, interval: int, times: int, fromNow: bool)
      returns (timer: TimerNode, ok: bool)
      requires Valid()
      modifies this`lastId, this`view
      ensures Valid() && view == old(view).(lastId := lastId) && lastId == FreshId(old(view).lastId) && fresh(timer)
      ensures old(Located()) ==> Located()
      ensures ok == (times != 0 && interval > 0) && timer !in repr && !timer.calling
      ensures 1 <= lastId <= MAX_ID && view.now == now && (lastId in nodes <==> lastId in view.live)
      ensures ok ==> timer.Rec() == Timer(lastId, kind, now + start, interval, times, fromNow)
    {
      lastId := FreshId(lastId);
      view := view.(lastId := lastId);
      timer := new TimerNode();
      ok := timer.Init(lastId, kind, now + start, interval, times, fromNow);
    }

    method Admit(timer: TimerNode, ghost t: Timer)
      requires Valid() && timer !in repr && !timer.calling && timer.Rec() == t && t.id !in view.live
      requires 1 <= t.id <= MAX_ID && t.interval > 0 && t.left != 0
      modifies this`nodes, this`repr, this`view, this`q, this`links, this`overflow, wheels
      ensures Valid() && repr == old(repr) + {timer} && view == WithTimer(old(view), t)
      ensures old(Located()) ==> (Located() <==> CutHarmless(t.next, now, s, |wheels|))
    {
      ghost var links0, live0 := links, view.live;
      Enlist(timer, t);
      FiledWell(links0, live0, clocks, t, now, s);
    }

    method Enlist(timer: TimerNode, ghost t: Timer)
      requires Valid() && timer !in repr && !timer.calling && timer.Rec() == t && t.id !in view.live
      requires 1 <= t.id <= MAX_ID && t.interval > 0 && t.left != 0
      modifies this`nodes, this`repr, this`view, this`q, this`links, this`overflow, wheels
      ensures Valid() && repr == old(repr) + {timer}
      ensures view == WithTimer(old(view), t) && links == old(links)[t.id := FileFrom(t.next, clocks, s, 0)]
    {
      Register(timer, t);
      AddTimerNode(timer);
    }

    method Register(timer: TimerNode, ghost t: Timer)
      requires Sound({}) && timer !in repr && !timer.calling && timer.Rec() == t && t.id !in view.live
      requires 1 <= t.id <= MAX_ID && t.interval > 0 && t.left != 0
      modifies this`nodes, this`repr, this`view
      ensures Sound({}) && repr == old(repr) + {timer}
      ensures view == WithTimer(old(view), t)
    {
      nodes, repr := nodes[timer.id := timer], repr + {timer};
      view := WithTimer(view, t);
    }

    // Unlinks the node from its list.
    method Leave(id: int)
      requires Wired([]) && id in links
      modifies this`q, this`links, this`overflow, wheels
      ensures Wired([]) && links == old(links) - {id}
      ensures q == Put(old(q), old(links)[id], Without(At(old(q), old(links)[id]), id))
    {
      LeaveThreaded(q, links, id);
      ghost var p := links[id];
      assert Holds(At(q, p), links, p);
      match links[id] {
        case Slot(i, k) =>
          assert Turns(wheels[i], i);
          wheels[i].steps := wheels[i].steps[k := Without(wheels[i].steps[k], id)];
        case Overflow =>
          overflow := Without(overflow, id);
        case Loose =>
          assert false;
      }
      links := links - {id};
      q := Put(q, p, Without(At(q, p), id));
      assert forall j :: 0 <= j < |wheels| ==> Turns(wheels[j], j);
    }

    method RemoveTimer(id: int) returns (found: bool)
      requires Valid()
      modifies this, repr, wheels
      ensures Valid() && repr == old(repr)
      ensures (view, found) == Removed(old(view), id)
      ensures old(Located()) ==> Located()
    {
      found := Release(id, {});
    }

    // The body of RemoveTimer. A timer being fired (out) has already left its list.
    method Release(id: int, ghost out: set<int>) returns (found: bool)
      requires Sound(out) && Wired([]) && out <= {id} && links.Keys == view.live.Keys - out
      modifies this`now, this`nodes, this`view, this`q, this`links, this`overflow, repr, wheels
      ensures Sound({}) && Wired([]) && links == old(links) - {id}
      ensures (view, found) == Removed(old(view), id) && links.Keys == view.live.Keys
      ensures id !in old(links) ==> q == old(q)
    {
      hide Wired;
      if id !in nodes {
        assert view.live - {id} == view.live;
        assert links - {id} == links;
        return false;
      }
      var timer := nodes[id];
      var deferred := timer.RemoveIfCalling();
      if deferred { return true; }
      if id in links { Leave(id); } else { assert links - {id} == links; }
      Forget(id, out);
      return true;
    }

    method Forget(id: int, ghost out: set<int>)
      requires Sound(out) && out <= {id} && id in nodes
      modifies this`nodes, this`view
      ensures Sound({}) && view == old(view).(live := old(view).live - {id})
    {
      nodes := nodes - {id};
      view := view.(live := view.live - {id});
    }

    // Calls the timer's callback.
    method Call(id: int)
      requires Sound({}) && id in nodes
      modifies this`view, nodes[id]
      ensures Sound({id}) && nodes[id].Rec() == view.live[id]
      ensures view == old(view).(live := old(view).live[id := TimedOut(old(view).live[id], callback)],
                                 calls := old(view).calls[id := old(view).calls[id] + [Told(old(view).live[id])]])
    {
      ghost var t := view.live[id];
      var _ := nodes[id].TimeOut(callback);
      view := view.(live := view.live[id := TimedOut(t, callback)],
        calls := view.calls[id := view.calls[id] + [Told(t)]]);
    }

    method SetNextTime(id: int)
      requires Sound({id}) && id in nodes
      modifies this`view, nodes[id]
      ensures Sound({id}) && nodes[id].Rec() == view.live[id]
      ensures view == old(view).(live := old(view).live[id := Advanced(old(view).live[id], now)])
    {
      ghost var t := view.live[id];
      nodes[id].NextTime(now);
      view := view.(live := view.live[id := Advanced(t, now)]);
    }

    // One round of the firing loop on leaf slot k: call the front timer, unlink it, and either drop it
    // or file it under its next deadline.
    method FireFront(k: nat)
      requires Sound({}) && Wired([]) && links.Keys == view.live.Keys
      requires InRange(q, Slot(0, k)) && At(q, Slot(0, k)) != []
      requires At(q, Slot(0, k))[0] in view.live
      modifies this`now, this`nodes, this`view, this`q, this`links, this`overflow, repr, wheels
      ensures Sound({}) && Wired([]) && links.Keys == view.live.Keys
      ensures var l := At(old(q), Slot(0, k));
              && l[0] in old(view).live && l[0] in old(view).calls && view == Fired(old(view), l[0], callback)
              && Refiled(Put(old(q), Slot(0, k), l[1..]), old(links) - {l[0]}, q, links, view.live, clocks, s, l[0])
    {
      hide Wired, Sound, Called, Fired;
      FrontHeld(k);
      FiredIsCalled(view, At(q, Slot(0, k))[0], callback);
      var id := CallFront(k);
      DropOrRefile(id);
    }

    method DropOrRefile(id: int)
      requires Sound({id}) && Wired([]) && id in nodes && links.Keys == view.live.Keys - {id}
      modifies this`now, this`nodes, this`view, this`q, this`links, this`overflow, repr, wheels
      ensures Sound({}) && Wired([]) && links.Keys == view.live.Keys
      ensures view == if old(view).live[id].left == 0 then old(view).(live := old(view).live - {id}) else old(view)
      ensures Refiled(old(q), old(links), q, links, view.live, clocks, s, id)
    {
      if nodes[id].left == 0 {
        Drop(id);
      } else {
        AddTimerNode(nodes[id]);
      }
    }

    lemma FrontHeld(k: nat)
      requires Sound({}) && Wired([]) && links.Keys == view.live.Keys
      requires InRange(q, Slot(0, k)) && At(q, Slot(0, k)) != []
      ensures |wheels| > 0 && k < |wheels[0].steps| && wheels[0].steps[k] == At(q, Slot(0, k))
      ensures var id := At(q, Slot(0, k))[0];
              && id in links && links[id] == Slot(0, k) && id in nodes && nodes[id] in repr
              && id in view.live && id in view.calls && view.now == now
    {
      assert Turns(wheels[0], 0);
      assert Holds(At(q, Slot(0, k)), links, Slot(0, k));
    }

    method CallFront(k: nat) returns (id: int)
      requires Sound({}) && Wired([]) && links.Keys == view.live.Keys
      requires InRange(q, Slot(0, k)) && At(q, Slot(0, k)) != []
      modifies this`view, this`q, this`links, this`overflow, repr, wheels
      ensures Sound({id}) && Wired([]) && links.Keys == view.live.Keys - {id} && links == old(links) - {id}
      ensures var l := At(old(q), Slot(0, k)); id == l[0] && q == Put(old(q), Slot(0, k), l[1..])
      ensures id in nodes && nodes[id].Rec() == view.live[id] && id in old(view).live && id in old(view).calls
      ensures view == Called(old(view), id, callback)
    {
      hide Wired, Called, Sound;
      ghost var l := At(q, Slot(0, k));
      FrontHeld(k);
      id := wheels[0].steps[k][0];
      CalledTwice(view, id, callback);
      Call(id);
      Leave(id);
      PopFront(l);
      SetNextTime(id);
    }

    // Removal at the end of a firing: the timer is in no list any more.
    method Drop(id: int)
      requires Sound({id}) && Wired([]) && id in nodes && links.Keys == view.live.Keys - {id}
      modifies this`now, this`nodes, this`view, this`q, this`links, this`overflow, repr, wheels
      ensures Sound({}) && Wired([]) && view == old(view).(live := old(view).live - {id})
      ensures q == old(q) && links == old(links) && links.Keys == view.live.Keys
    {
      assert links - {id} == links;
      var _ := Release(id, {id});
    }

    // Every timer placed well and all deadlines of the update near: the update does to each timer what
    // it is owed, and none is left with its deadline behind it. In any case nothing fires early or twice.
    method Update(delta: int)
      requires Valid()
      modifies this`now, this`nodes, this`view, this`q, this`links, this`overflow, this`clocks, repr, wheels
      ensures Valid() && now == if delta > 0 then old(now) + delta else old(now)
      ensures delta <= 0 ==> view == old(view) && links == old(links)
      ensures delta > 0 ==> Progress(old(view).live, old(view).calls, view.live, view.calls, now, callback)
      ensures old(Located()) && old(InHorizon(delta)) ==>
                && view == Updated(old(view), delta, callback)
                && Located()
                && (delta > 0 ==> forall id :: id in view.live ==> view.live[id].next > now)
    {
      hide Threaded, AllGood, Near;
      if delta <= 0 { return; }
      ghost var before, c: nat, good := view, now, Located() && InHorizon(delta);
      now := now + delta;
      view := view.(now := now);
      ghost var n := RunningStart(before, delta, callback);
      RunWheels(Run(before, delta, n, c, good));
      LastTick(before, delta, n, now, good);
    }

    // Ticks until the leaf wheel shows the new time.
    method RunWheels(ghost run: Run)
      requires Clocked(run.c) && Going(run) && links.Keys == view.live.Keys
      requires run.before.now <= run.c && now == run.before.now + run.delta
      requires run.good ==>
        AllGood(links, view.live, run.c, s, |wheels|) && Near(view.live, run.before.now, now, s, |wheels|)
      modifies this`now, this`nodes, this`view, this`q, this`links, this`overflow, this`clocks, repr, wheels
      ensures now == old(now) && run.c <= now && Clocked(now) && Going(run.(c := now)) && links.Keys == view.live.Keys
      ensures run.good ==>
        AllGood(links, view.live, now, s, |wheels|) && Near(view.live, run.before.now, now, s, |wheels|)
    {
      ghost var c := run.c;
      LeafClockIs(c);
      while wheels[0].GetNextTime() <= now
        invariant run.c <= c <= now == run.before.now + run.delta && wheels[0].GetNextTime() == c + 1
        invariant Clocked(c) && Going(run.(c := c)) && links.Keys == view.live.Keys
        invariant run.good ==>
          AllGood(links, view.live, c, s, |wheels|) && Near(view.live, run.before.now, now, s, |wheels|)
        decreases now - c
      {
        OneTick(run.(c := c));
        c := c + 1;
      }
    }

    // The leaf wheel moves on, the coarser wheels follow, and the slot left behind is fired.
    method OneTick(ghost run: Run)
      requires Clocked(run.c) && Going(run) && links.Keys == view.live.Keys
      requires run.before.now <= run.c < now == run.before.now + run.delta
      requires run.good ==>
        AllGood(links, view.live, run.c, s, |wheels|) && Near(view.live, run.before.now, now, s, |wheels|)
      modifies this`now, this`nodes, this`view, this`q, this`links, this`overflow, this`clocks, repr, wheels
      ensures Clocked(run.c + 1) && Going(run.(c := run.c + 1)) && links.Keys == view.live.Keys && now == old(now)
      ensures run.good ==>
        AllGood(links, view.live, run.c + 1, s, |wheels|) && Near(view.live, run.before.now, now, s, |wheels|)
      ensures wheels[0].GetNextTime() == run.c + 2
    {
      hide AllGood, Threaded, Near;
      ghost var turn := Turn(run.c + 1, run.c % s, run.before.now, now, run.good);
      var k := LeafTick(turn);
      TryTrigger(k, run.(c := run.c + 1));
      LeafClockIs(run.c + 1);
    }

    // The slot of the present is fired last.
    method LastTick(ghost before: Timers, ghost delta: int, ghost n: nat, ghost c: nat, ghost good: bool)
      requires Clocked(c) && Going(Run(before, delta, n, c, good)) && links.Keys == view.live.Keys && c == now
      requires before.now <= c && now == before.now + delta && delta > 0 && Ok(before)
      requires good ==> AllGood(links, view.live, c, s, |wheels|) && Near(view.live, before.now, now, s, |wheels|)
      modifies this`now, this`nodes, this`view, this`q, this`links, this`overflow, repr, wheels
      ensures Valid() && now == old(now)
      ensures Running(before, view, delta, n, callback)
      ensures good ==> view == Updated(before, delta, callback) && Located()
      ensures good ==> forall id :: id in view.live ==> view.live[id].next > now
    {
      var k := LeafClock(c);
      if good { PresentTicks(q, links, view.live, c, s, |wheels|, before.now, now); }
      TryTrigger(k, Run(before, delta, n, c, good));
      if good {
        AllAhead(q, links, view.live, c, s, |wheels|);
        RunningEnd(before, view, delta, n, callback);
      }
    }

    lemma LeafClockIs(c: nat)
      requires Clocked(c)
      ensures wheels[0].GetNextTime() == c + 1
    {
      LeafTicked(clocks, c, s);
      WheelClock(0);
      assert Pow(s, 0) == 1;
    }

    // Fires the timers at the front of leaf slot k as long as they are due.
    method TryTrigger(k: nat, ghost run: Run)
      requires InRange(q, Slot(0, k)) && Clocked(run.c) && Going(run) && links.Keys == view.live.Keys
      requires run.good ==> Ticking(q, links, view.live, run.c, s, |wheels|, |wheels| + 1, k, run.before.now, now)
      modifies this`now, this`nodes, this`view, this`q, this`links, this`overflow, repr, wheels
      ensures Clocked(run.c) && Going(run) && links.Keys == view.live.Keys && now == old(now)
      ensures run.good ==>
        AllGood(links, view.live, run.c, s, |wheels|) && Near(view.live, run.before.now, now, s, |wheels|)
      ensures run.good && k == run.c % s ==> InRange(q, Slot(0, k)) && At(q, Slot(0, k)) == []
    {
      FrontIsLive(k);
      while wheels[0].steps[k] != [] && nodes[wheels[0].steps[k][0]].next <= now &&
        nodes[wheels[0].steps[k][0]].left != 0
        invariant Clocked(run.c) && Going(run) && FrontShown(k) && links.Keys == view.live.Keys && now == old(now)
        invariant run.good ==> Ticking(q, links, view.live, run.c, s, |wheels|, |wheels| + 1, k, run.before.now, now)
        decreases Debt(view.live, now, run.n)
      {
        FireOnce(k, run);
      }
      if run.good {
        SlotSettled(q, links, view.live, run.c, s, |wheels|, k, now);
      }
    }

    method FireOnce(k: nat, ghost run: Run)
      requires Clocked(run.c) && Going(run) && FrontShown(k) && links.Keys == view.live.Keys
      requires At(q, Slot(0, k)) != [] && view.live[At(q, Slot(0, k))[0]].next <= now
      requires run.good ==> Ticking(q, links, view.live, run.c, s, |wheels|, |wheels| + 1, k, run.before.now, now)
      modifies this`now, this`nodes, this`view, this`q, this`links, this`overflow, repr, wheels
      ensures Clocked(run.c) && Going(run) && FrontShown(k) && links.Keys == view.live.Keys && now == old(now)
      ensures run.good ==> Ticking(q, links, view.live, run.c, s, |wheels|, |wheels| + 1, k, run.before.now, now)
      ensures Debt(view.live, now, run.n) < Debt(old(view).live, now, run.n)
    {
      ghost var q0, links0, v := q, links, view;
      FireFront(k);
      if run.good { FireTicks(q0, links0, v, clocks, run.c, s, k, run.before.now, callback, q, links); }
      RunningFire(run.before, v, run.delta, run.n, callback, At(q0, Slot(0, k))[0]);
      FrontIsLive(k);
    }

    // Empties the cascade's local list, filing each timer anew.
    method Drain(list: seq<int>, ghost turn: Turn, ghost i: nat, ghost j: nat)
      requires Sound({}) && Wired(list) && links.Keys == view.live.Keys
      requires turn.t >= 1 && turn.now == now && 1 <= j && SyncedBelow(clocks, turn.t, s, j)
      requires turn.good ==> TicksAt(turn, i) && Fileable(list, view.live, turn.t, s, |wheels|, j)
      modifies this`q, this`links, this`overflow, wheels
      ensures Wired([]) && links.Keys == view.live.Keys
      ensures turn.good ==> TicksAt(turn, i)
    {
      var rest := list;
      while rest != []
        invariant Sound({}) && Wired(rest) && links.Keys == view.live.Keys
        invariant turn.good ==> TicksAt(turn, i) && Fileable(rest, view.live, turn.t, s, |wheels|, j)
      {
        DrainFront(rest, turn, i, j);
        rest := rest[1..];
      }
    }

    method DrainFront(list: seq<int>, ghost turn: Turn, ghost i: nat, ghost j: nat)
      requires Sound({}) && Wired(list) && links.Keys == view.live.Keys && list != []
      requires turn.t >= 1 && turn.now == now && 1 <= j && SyncedBelow(clocks, turn.t, s, j)
      requires turn.good ==> TicksAt(turn, i) && Fileable(list, view.live, turn.t, s, |wheels|, j)
      modifies this`q, this`links, this`overflow, wheels
      ensures Wired(list[1..]) && links.Keys == view.live.Keys
      ensures turn.good ==> TicksAt(turn, i) && Fileable(list[1..], view.live, turn.t, s, |wheels|, j)
    {
      ghost var q0, links0 := q, links;
      DrainOne(list);
      if turn.good { DrainTicks(q0, links0, view.live, clocks, turn.t, s, i, j, turn.k, turn.start, now); }
    }

    method DrainOne(list: seq<int>)
      requires Sound({}) && Wired(list) && links.Keys == view.live.Keys && list != []
      modifies this`q, this`links, this`overflow, wheels
      ensures Wired(list[1..]) && links.Keys == view.live.Keys && list[0] in view.live
      ensures var p := FileFrom(view.live[list[0]].next, clocks, s, 0);
              Pushed(old(q).(loose := list[1..]), old(links), q, links, list[0], p)
    {
      hide Threaded;
      ghost var links0 := links;
      PopLoose(list);
      AddTimerNode(nodes[list[0]]);
      assert links == links0[list[0] := links[list[0]]];
    }

    method PopLoose(list: seq<int>)
      requires Sound({}) && Wired(list) && links.Keys == view.live.Keys && list != []
      modifies this`q, this`links
      ensures Wired(list[1..]) && q == old(q).(loose := list[1..]) && links == old(links) - {list[0]}
      ensures list[0] in nodes && nodes[list[0]].id == list[0] && nodes[list[0]].next == view.live[list[0]].next
      ensures list[0] in old(links)
    {
      FrontLoose();
      ghost var q0 := q;
      links := links - {list[0]};
      q := q.(loose := list[1..]);
      assert q == Put(q0, Loose, list[1..]);
      assert forall j :: 0 <= j < |wheels| ==> Turns(wheels[j], j);
    }

    lemma FrontLoose()
      requires Sound({}) && Wired(q.loose) && links.Keys == view.live.Keys && q.loose != []
      ensures var id := q.loose[0];
              && id in nodes && nodes[id].id == id && nodes[id].next == view.live[id].next
              && id in links && Threaded(Put(q, Loose, q.loose[1..]), links - {id})
    {
      assert Holds(At(q, Loose), links, Loose);
      assert q.loose[0] in q.loose;
      PopFront(q.loose);
      LeaveThreaded(q, links, q.loose[0]);
    }

    ghost predicate TicksAt(turn: Turn, i: nat)
      reads this`q, this`links, this`view
    {
      s >= 1 && Ticking(q, links, view.live, turn.t, s, |wheels|, i, turn.k, turn.start, turn.now)
    }

    // Moves the whole list of one slot to the cascade's local list.
    method SpliceStep(i: nat, k: nat) returns (list: seq<int>)
      requires Wired([]) && InRange(q, Slot(i, k))
      modifies this`q, this`links, wheels
      ensures list == At(old(q), Slot(i, k)) && Wired(list) && links == Loosened(old(links), Slot(i, k))
      ensures q == Put(Put(old(q), Loose, list), Slot(i, k), [])
    {
      hide Threaded;
      SpliceThreaded(q, links, Slot(i, k));
      assert Turns(wheels[i], i);
      list := wheels[i].steps[k];
      wheels[i].steps := wheels[i].steps[k := []];
      links := map x | x in links :: if links[x] == Slot(i, k) then Loose else links[x];
      q := Put(Put(q, Loose, list), Slot(i, k), []);
      assert forall j :: 0 <= j < |wheels| ==> Turns(wheels[j], j);
    }

    method SpliceOverflow() returns (list: seq<int>)
      requires Wired([])
      modifies this`q, this`links, this`overflow
      ensures list == old(q).overflow && Wired(list) && links == Loosened(old(links), Overflow)
      ensures q == Put(Put(old(q), Loose, list), Overflow, [])
    {
      hide Threaded;
      SpliceThreaded(q, links, Overflow);
      list, overflow := overflow, [];
      links := map x | x in links :: if links[x] == Overflow then Loose else links[x];
      q := Put(Put(q, Loose, list), Overflow, []);
      assert forall j :: 0 <= j < |wheels| ==> Turns(wheels[j], j);
    }

    // Moves wheel i's clock one step on.
    method Tick(i: nat)
      requires Wired([]) && i < |wheels|
      modifies this`clocks, wheels
      ensures Wired([]) && clocks == old(clocks)[i := old(clocks)[i] + Pow(s, i)]
    {
      assert Turns(wheels[i], i);
      wheels[i].NextTime();
      clocks := clocks[i := wheels[i].now];
      assert forall j :: 0 <= j < |wheels| ==> Turns(wheels[j], j);
    }

    // The timers of the step wheel i has reached go down to finer wheels.
    method DrainStep(i: nat, ghost turn: Turn)
      requires Sound({}) && Wired([]) && links.Keys == view.live.Keys
      requires turn.t >= 1 && turn.now == now && 1 <= i < |wheels| && clocks[i] == turn.t && turn.t % Pow(s, i) == 0
      requires SyncedBelow(clocks, turn.t, s, i + 1)
      requires turn.good ==> TicksAt(turn, i)
      modifies this`q, this`links, this`overflow, wheels
      ensures Wired([]) && links.Keys == view.live.Keys
      ensures turn.good ==> TicksAt(turn, i + 1)
    {
      hide Threaded;
      var list := LoosenStep(i, turn);
      Drain(list, turn, i + 1, i + 1);
    }

    method LoosenStep(i: nat, ghost turn: Turn) returns (list: seq<int>)
      requires Wired([]) && links.Keys == view.live.Keys
      requires turn.t >= 1 && turn.now == now && 1 <= i < |wheels| && clocks[i] == turn.t && turn.t % Pow(s, i) == 0
      requires turn.good ==> TicksAt(turn, i)
      modifies this`q, this`links, wheels
      ensures Wired(list) && links.Keys == view.live.Keys
      ensures turn.good ==> TicksAt(turn, i + 1) && Fileable(list, view.live, turn.t, s, |wheels|, i + 1)
    {
      assert Turns(wheels[i], i);
      var k := wheels[i].CurrentStep();
      if turn.good { SpliceTicks(q, links, view.live, turn.t, s, |wheels|, i, turn.k, turn.start, now); }
      list := SpliceStep(i, k);
    }

    // When the last wheel starts again, the overflow list is filed anew.
    method DrainOverflow(ghost turn: Turn)
      requires Sound({}) && Wired([]) && links.Keys == view.live.Keys
      requires turn.t >= 1 && turn.now == now && turn.t % Pow(s, |wheels|) == 0
      requires SyncedBelow(clocks, turn.t, s, |wheels|)
      requires turn.good ==> TicksAt(turn, |wheels|)
      modifies this`q, this`links, this`overflow, wheels
      ensures Wired([]) && links.Keys == view.live.Keys
      ensures turn.good ==> TicksAt(turn, |wheels| + 1)
    {
      if turn.good { OverflowTicks(q, links, view.live, turn.t, s, |wheels|, turn.k, turn.start, now); }
      var list := SpliceOverflow();
      Drain(list, turn, |wheels| + 1, |wheels|);
    }

    lemma Wraps(i: nat, t: int)
      requires Wired([]) && i < |wheels| && clocks[i] == t && t % Pow(s, i) == 0
      ensures wheels[i].Valid()
      ensures wheels[i].IsNextWheel() <==> t % Pow(s, i + 1) == 0
    {
      assert Turns(wheels[i], i);
      DivPowStep(t, s, i);
    }

    // Wheel i reaches a new step.
    method StepWheel(i: nat, ghost turn: Turn)
      requires Sound({}) && Wired([]) && links.Keys == view.live.Keys
      requires turn.t >= 1 && turn.now == now && 1 <= i < |wheels|
      requires HalfTurned(clocks, turn.t, s, i) && clocks[i] + Pow(s, i) <= turn.t
      requires turn.good ==> TicksAt(turn, i)
      modifies this`q, this`links, this`overflow, this`clocks, wheels
      ensures Wired([]) && links.Keys == view.live.Keys
      ensures HalfTurned(clocks, turn.t, s, i + 1) && clocks[i] == turn.t
      ensures turn.good ==> TicksAt(turn, Done(i))
    {
      hide Threaded;
      WheelStepped(clocks, turn.t, s, i);
      Tick(i);
      DrainStep(i, turn);
      if i == |wheels| - 1 {
        Wraps(i, turn.t);
        if wheels[i].IsNextWheel() {
          DrainOverflow(turn);
        } else if turn.good {
          SkipTicks(q, links, view.live, turn.t, s, |wheels|, i + 1, turn.k, turn.start, now);
        }
      }
    }

    // Steps wheel i until its clock is not behind t: once or not at all.
    method TurnWheel(i: nat, t: int, ghost turn: Turn)
      requires Sound({}) && Wired([]) && links.Keys == view.live.Keys
      requires t == turn.t >= 1 && turn.now == now && 1 <= i < |wheels|
      requires HalfTurned(clocks, turn.t, s, i) && (turn.good ==> TicksAt(turn, i))
      modifies this`q, this`links, this`overflow, this`clocks, wheels
      ensures Wired([]) && links.Keys == view.live.Keys && HalfTurned(clocks, turn.t, s, i + 1)
      ensures turn.good ==> TicksAt(turn, Done(i))
    {
      WheelClock(i);
      ghost var stepped := false;
      while wheels[i].GetNextTime() <= t
        invariant Wired([]) && links.Keys == view.live.Keys
        invariant wheels[i].GetNextTime() == clocks[i] + Pow(s, i)
        invariant !stepped ==> HalfTurned(clocks, turn.t, s, i) && (turn.good ==> TicksAt(turn, i))
        invariant stepped ==> HalfTurned(clocks, turn.t, s, i + 1) && (turn.good ==> TicksAt(turn, Done(i)))
        invariant stepped ==> clocks[i] == t
        decreases !stepped
      {
        StepWheel(i, turn);
        WheelClock(i);
        stepped := true;
      }
      if !stepped {
        WheelWaits(clocks, turn.t, s, i);
        if turn.good { SkipTicks(q, links, view.live, turn.t, s, |wheels|, i, turn.k, turn.start, now); }
      }
    }

    lemma WheelClock(i: nat)
      requires Wired(q.loose) && i < |wheels|
      ensures wheels[i].now == clocks[i] && wheels[i].GetNextTime() == clocks[i] + Pow(s, i) && Pow(s, i) >= 1
    {
      assert Turns(wheels[i], i);
    }

    method TryTurnWheel(t: int, ghost turn: Turn)
      requires Sound({}) && Wired([]) && links.Keys == view.live.Keys
      requires t == turn.t >= 1 && turn.now == now
      requires HalfTurned(clocks, turn.t, s, 1) && (turn.good ==> TicksAt(turn, 1))
      modifies this`q, this`links, this`overflow, this`clocks, wheels
      ensures Clocked(turn.t) && links.Keys == view.live.Keys
      ensures turn.good ==> TicksAt(turn, |wheels| + 1)
    {
      for i := 1 to |wheels|
        invariant Wired([]) && links.Keys == view.live.Keys && HalfTurned(clocks, turn.t, s, i)
        invariant turn.good ==> TicksAt(turn, if i == |wheels| then i + 1 else i)
      {
        TurnWheel(i, t, turn);
      }
    }

    // One tick of the leaf wheel.
    method LeafTick(ghost turn: Turn) returns (k: nat)
      requires Sound({}) && links.Keys == view.live.Keys && turn.now == now
      requires turn.t >= 1 && Clocked(turn.t - 1) && turn.k == (turn.t - 1) % s
      requires turn.good ==> turn.start <= turn.t - 1 < now && Near(view.live, turn.start, now, s, |wheels|)
      requires turn.good ==> AllGood(links, view.live, turn.t - 1, s, |wheels|)
      modifies this`q, this`links, this`overflow, this`clocks, wheels
      ensures Clocked(turn.t) && links.Keys == view.live.Keys && k == turn.k && InRange(q, Slot(0, k))
      ensures turn.good ==> TicksAt(turn, |wheels| + 1)
    {
      hide Threaded;
      k := LeafClock(turn.t - 1);
      if turn.good { LeafTicks(q, links, view.live, turn.t - 1, s, |wheels|, turn.start, now); }
      Tick(0);
      LeafWraps(turn.t);
      if wheels[0].IsNextWheel() {
        TryTurnWheel(wheels[0].now, turn);
      } else {
        OnlyLeafTicks(clocks, turn.t, s);
        if turn.good { SkipTicks(q, links, view.live, turn.t, s, |wheels|, 1, turn.k, turn.start, now); }
      }
      assert Turns(wheels[0], 0);
    }

    method LeafClock(ghost c: nat) returns (k: nat)
      requires Clocked(c)
      ensures k == c % s && InRange(q, Slot(0, k))
      ensures clocks[0] == c && HalfTurned(clocks[0 := c + Pow(s, 0)], c + 1, s, 1)
    {
      LeafTicked(clocks, c, s);
      assert Turns(wheels[0], 0) && Pow(s, 0) == 1;
      k := wheels[0].CurrentStep();
    }

    lemma LeafWraps(t: nat)
      requires Wired([]) && clocks[0] == t
      ensures wheels[0].Valid() && wheels[0].now == t && (wheels[0].IsNextWheel() <==> t % Pow(s, 1) == 0)
    {
      assert Turns(wheels[0], 0) && Pow(s, 0) == 1 && Pow(s, 1) == s * Pow(s, 0);
    }

    // Past the last wheel the overflow list is done as well.
    ghost function Done(i: nat): nat {
      if i + 1 == |wheels| then i + 2 else i + 1
    }

    lemma FrontIsLive(k: nat)
      requires Wired([]) && Sound({}) && links.Keys == view.live.Keys && InRange(q, Slot(0, k))
      ensures FrontShown(k)
    {
      assert Turns(wheels[0], 0);
      assert Holds(At(q, Slot(0, k)), links, Slot(0, k));
      if At(q, Slot(0, k)) != [] {
        var x := At(q, Slot(0, k))[0];
        assert x in At(q, Slot(0, k));
        assert x in links.Keys;
      }
    }

    // The leaf slot and the timer at its front are what the ghost state says.
    ghost predicate FrontShown(k: nat)
      requires Wired([]) && Sound({})
      reads this`now, this`nodes, this`lastId, this`view, this`repr, repr
      reads this`q, this`links, this`overflow, this`clocks, wheels
    {
      && InRange(q, Slot(0, k)) && k < |wheels[0].steps| && wheels[0].steps[k] == At(q, Slot(0, k))
      && (At(q, Slot(0, k)) != [] ==>
            var x := At(q, Slot(0, k))[0];
            x in view.live && nodes[x].next == view.live[x].next && nodes[x].left != 0)
    }

    // All wheels show time c.
    ghost predicate Clocked(c: nat)
      reads this`q, this`links, this`overflow, this`clocks, wheels
    {
      Wired([]) && SyncedBelow(clocks, c, s, |wheels|)
    }

    // The update that is under way.
    ghost predicate Going(run: Run)
      reads this`now, this`nodes, this`lastId, this`view, this`repr, repr
    {
      Sound({}) && Running(run.before, view, run.delta, run.n, callback) && run.c <= now
    }
  }

  // An update under way: the state before it, its length, a bound on the ids, the clock it has come
  // to, and whether every timer was well placed and near when it began.
  datatype Run = Run(before: Timers, delta: int, n: nat, c: nat, good: bool)

  // A turn of the wheels at tick t; leaf slot k is still to be fired.
  datatype Turn = Turn(t: nat, k: nat, start: int, now: int, good: bool)
}
