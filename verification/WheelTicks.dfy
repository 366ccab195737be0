// What holds of the wheel's lists while the clock ticks: kept by every splice, filing and firing.
module WheelTicks {
  import opened Arithmetic
  import opened Placement
  import opened TimerNodes
  import opened TimerSpec
  import opened WheelQueues

  // At clock c of an update that runs from start until now: wheels from i on still wait to be turned,
  // and leaf slot k may hold timers left behind, none of them hidden behind a timer that is not due.
  ghost predicate Ticking(q: Queues, home: map<int, Place>, live: map<int, Timer>, c: nat, s: nat, n: nat,
                          i: nat, k: nat, start: int, now: int)
    requires s >= 1
  {
    && start <= c <= now && home.Keys <= live.Keys && InRange(q, Slot(0, k))
    && AllFit(home, live, c, s, n, i, k)
    && Unblocked(At(q, Slot(0, k)), live, c, now)
    && Near(live, start, now, s, n)
  }

  // Wheels below i show time t, the others still t - 1.
  ghost predicate HalfTurned(clocks: seq<int>, t: nat, s: nat, i: nat)
    requires s >= 1 && t >= 1
  {
    SyncedBelow(clocks, t, s, i) && SyncedFrom(clocks, t - 1, s, i)
  }

  ghost predicate SyncedFrom(clocks: seq<int>, c: nat, s: nat, i: nat)
    requires s >= 1
  {
    forall m :: i <= m < |clocks| ==> Synced(clocks, c, s, m)
  }

  // The timers in a cascade's local list belong below wheel j, not before t.
  ghost predicate Fileable(list: seq<int>, live: map<int, Timer>, t: nat, s: nat, n: nat, j: nat)
    requires s >= 1 && j >= 1
  {
    forall x :: x in list ==>
      x in live && live[x].next >= t && (j < n ==> live[x].next / Pow(s, j - 1) <= t / Pow(s, j - 1))
  }

  ghost predicate Pushed(q: Queues, home: map<int, Place>, q': Queues, home': map<int, Place>, id: int, p: Place) {
    InRange(q, p) && q' == Put(q, p, At(q, p) + [id]) && home' == home[id := p]
  }

  // The timer, taken out of its list, is gone or filed again.
  ghost predicate Refiled(q: Queues, home: map<int, Place>, q': Queues, home': map<int, Place>,
                          live': map<int, Timer>, clocks: seq<int>, s: nat, id: int)
    requires s >= 1
  {
    if id in live' then Pushed(q, home, q', home', id, FileFrom(live'[id].next, clocks, s, 0))
    else q' == q && home' == home
  }

  // The leaf clock ticks from c to c + 1.
  lemma LeafTicks(q: Queues, home: map<int, Place>, live: map<int, Timer>, c: nat, s: nat, n: nat, start: int, now: int)
    requires s >= 1 && n >= 1 && home.Keys <= live.Keys && Threaded(q, home) && AllGood(home, live, c, s, n)
    requires InRange(q, Slot(0, c % s)) && Near(live, start, now, s, n) && start <= c < now
    ensures Ticking(q, home, live, c + 1, s, n, 1, c % s, start, now)
  {
    TickAll(home, live, c, s, n);
    DueSlotUnblocked(q, home, live, c, s, n, now, c + 1);
  }

  // In the slot of the present everything is due.
  lemma DueSlotUnblocked(q: Queues, home: map<int, Place>, live: map<int, Timer>, c: nat, s: nat, n: nat, now: int,
                         c': nat)
    requires s >= 1 && home.Keys <= live.Keys && Threaded(q, home) && AllGood(home, live, c, s, n) && c <= now
    requires InRange(q, Slot(0, c % s))
    ensures Unblocked(At(q, Slot(0, c % s)), live, c', now)
  {
    forall x | x in home && home[x] == Slot(0, c % s) ensures live[x].next <= now {
      GoodInCurrentSlotIsDue(live[x].next, c, s, n);
    }
    UnblockedIfDue(q, home, live, Slot(0, c % s), c', now);
  }

  // The last firing of an update works on the slot of the present.
  lemma PresentTicks(q: Queues, home: map<int, Place>, live: map<int, Timer>, c: nat, s: nat, n: nat, start: int,
                     now: int)
    requires s >= 1 && home.Keys <= live.Keys && Threaded(q, home) && AllGood(home, live, c, s, n)
    requires InRange(q, Slot(0, c % s)) && Near(live, start, now, s, n) && start <= c <= now
    ensures Ticking(q, home, live, c, s, n, n + 1, c % s, start, now)
  {
    DueSlotUnblocked(q, home, live, c, s, n, now, c);
  }

  lemma SpliceTicks(q: Queues, home: map<int, Place>, live: map<int, Timer>, t: nat, s: nat, n: nat,
                    i: nat, k: nat, start: int, now: int)
    requires s >= 1 && 1 <= i < n && Threaded(q, home) && q.loose == []
    requires Ticking(q, home, live, t, s, n, i, k, start, now) && t % Pow(s, i) == 0
    requires InRange(q, Slot(i, t / Pow(s, i) % s))
    ensures var p := Slot(i, t / Pow(s, i) % s);
            && Ticking(Put(Put(q, Loose, At(q, p)), p, []), Loosened(home, p), live, t, s, n, i + 1, k, start, now)
            && Fileable(At(q, p), live, t, s, n, i + 1)
  {
    var p := Slot(i, t / Pow(s, i) % s);
    StepLoosened(home, live, t, s, n, i, k);
    assert Holds(At(q, p), home, p);
    forall x | x in At(q, p)
      ensures x in live && live[x].next >= t && live[x].next / Pow(s, i) <= t / Pow(s, i)
    {
      assert BeginsAt(live[x].next, t, s, i);
      BeginsNotPast(live[x].next, t, s, i);
    }
  }

  lemma BeginsNotPast(next: int, t: nat, s: nat, i: nat)
    requires s >= 1 && t % Pow(s, i) == 0 && next / Pow(s, i) >= t / Pow(s, i)
    ensures next >= t
  {
    var e := Pow(s, i);
    DivBounds(next, e);
    DivBounds(t, e);
    DivMonoMul(t / e, next / e, e);
  }

  lemma OverflowTicks(q: Queues, home: map<int, Place>, live: map<int, Timer>, t: nat, s: nat, n: nat,
                      k: nat, start: int, now: int)
    requires s >= 1 && n >= 1 && Threaded(q, home) && q.loose == []
    requires Ticking(q, home, live, t, s, n, n, k, start, now) && t % Pow(s, n) == 0
    ensures Ticking(Put(Put(q, Loose, q.overflow), Overflow, []), Loosened(home, Overflow), live, t, s, n, n + 1, k,
      start, now)
    ensures Fileable(q.overflow, live, t, s, n, n)
  {
    OverflowLoosened(home, live, t, s, n, k);
    assert Holds(At(q, Overflow), home, Overflow);
    forall x | x in q.overflow ensures x in live && live[x].next >= t {
      assert Fits(home[x], live[x].next, t, s, n, n, k);
      BeginsNotPast(live[x].next, t, s, n);
    }
  }

  // Where the turn stands when wheel i is done and t is no multiple of the next step, or all are done.
  lemma SkipTicks(q: Queues, home: map<int, Place>, live: map<int, Timer>, t: nat, s: nat, n: nat,
                  i: nat, k: nat, start: int, now: int)
    requires s >= 1 && 1 <= i <= n && Ticking(q, home, live, t, s, n, i, k, start, now) && t % Pow(s, i) != 0
    ensures Ticking(q, home, live, t, s, n, n + 1, k, start, now)
    ensures Ticking(q, home, live, t, s, n, i + 1, k, start, now)
  {
    SkipWheel(home, live, t, s, n, i, k);
    forall x | x in home ensures Fits(home[x], live[x].next, t, s, n, i + 1, k) {
      assert Fits(home[x], live[x].next, t, s, n, n + 1, k);
    }
  }

  // One timer of a cascade goes from the local list to its new place.
  lemma DrainTicks(q: Queues, home: map<int, Place>, live: map<int, Timer>, clocks: seq<int>, t: nat, s: nat,
                   i: nat, j: nat, k: nat, start: int, now: int)
    requires 1 <= s < WORD && 1 <= j && SyncedBelow(clocks, t, s, j) && Threaded(q, home)
    requires Ticking(q, home, live, t, s, |clocks|, i, k, start, now)
    requires q.loose != [] && Fileable(q.loose, live, t, s, |clocks|, j)
    ensures var x := q.loose[0];
            var p, q1 := FileFrom(live[x].next, clocks, s, 0), q.(loose := q.loose[1..]);
            InRange(q1, p) ==>
              && Ticking(Put(q1, p, At(q1, p) + [x]), home[x := p], live, t, s, |clocks|, i, k, start, now)
              && Fileable(q1.loose, live, t, s, |clocks|, j)
  {
    var x := q.loose[0];
    assert x in q.loose;
    var p, q1 := FileFrom(live[x].next, clocks, s, 0), q.(loose := q.loose[1..]);
    assert HarmlessUntil(live[x].next, start, now, s, |clocks|) && CutHarmless(live[x].next, t, s, |clocks|);
    FiledGood(live[x].next, t, s, clocks, 0, j);
    assert Holds(At(q, Loose), home, Loose);
    if InRange(q1, p) {
      assert At(q1, Slot(0, k)) == At(q, Slot(0, k));
      FileFits(q1, home - {x}, live, t, s, |clocks|, i, k, now, x, p);
      assert (home - {x})[x := p] == home[x := p];
    }
  }

  // One firing on leaf slot k.
  lemma FireTicks(q: Queues, home: map<int, Place>, st: Timers, clocks: seq<int>, c: nat, s: nat, k: nat,
                  start: int, cb: Callback, q': Queues, home': map<int, Place>)
    requires 1 <= s < WORD && |clocks| >= 1 && SyncedBelow(clocks, c, s, |clocks|) && Threaded(q, home)
    requires Ticking(q, home, st.live, c, s, |clocks|, |clocks| + 1, k, start, st.now) && LiveOk(st.live)
    requires At(q, Slot(0, k)) != [] && At(q, Slot(0, k))[0] in st.live && At(q, Slot(0, k))[0] in st.calls
    requires var x := At(q, Slot(0, k))[0];
             && st.live[x].next <= st.now
             && Refiled(Put(q, Slot(0, k), At(q, Slot(0, k))[1..]), home - {x}, q', home', Fired(st, x, cb).live,
                clocks, s, x)
    ensures Ticking(q', home', Fired(st, At(q, Slot(0, k))[0], cb).live, c, s, |clocks|, |clocks| + 1, k, start, st.now)
  {
    var l := At(q, Slot(0, k));
    var x, live' := l[0], Fired(st, l[0], cb).live;
    var q1 := Put(q, Slot(0, k), l[1..]);
    assert live' - {x} == st.live - {x};
    assert Holds(l, home, Slot(0, k));
    assert l[0] in l;
    FrontLeaves(q, home, st.live, live', c, s, |clocks|, k, st.now);
    NearFired(st, x, start, cb, s, |clocks|);
    PopFront(l);
    LeaveThreaded(q, home, x);
    if x in live' {
      assert HarmlessUntil(live'[x].next, start, st.now, s, |clocks|) && CutHarmless(live'[x].next, c, s, |clocks|);
      RefileFits(q1, home - {x}, live', clocks, c, s, k, st.now, x);
    }
  }

  lemma NearFired(st: Timers, x: int, start: int, cb: Callback, s: nat, n: nat)
    requires s >= 1 && x in st.live && x in st.calls && Near(st.live, start, st.now, s, n) && st.live[x].next <= st.now
    ensures Near(Fired(st, x, cb).live, start, st.now, s, n)
  {
    hide HarmlessUntil;
    var live' := Fired(st, x, cb).live;
    if x in live' { NearUntil(live'[x].next, start, st.now, s, n); }
  }

  // The clock of wheel i reaches t exactly when t is a multiple of its step.
  lemma ClockStep(clocks: seq<int>, t: nat, s: nat, i: nat)
    requires s >= 1 && t >= 1 && Synced(clocks, t - 1, s, i)
    ensures clocks[i] + Pow(s, i) <= t <==> t % Pow(s, i) == 0
    ensures t % Pow(s, i) == 0 ==> clocks[i] + Pow(s, i) == t == t / Pow(s, i) * Pow(s, i)
    ensures t % Pow(s, i) != 0 ==> Synced(clocks, t, s, i)
  {
    var e := Pow(s, i);
    DivSucc(t - 1, e);
    DivBounds(t - 1, e);
    DivBounds(t, e);
    Distribute((t - 1) / e, 1, e);
    var _, _ := DivMod(t, e);
  }

  lemma StillBefore(clocks: seq<int>, clocks': seq<int>, c: nat, s: nat, i: nat)
    requires s >= 1 && i < |clocks| == |clocks'| && SyncedFrom(clocks, c, s, i)
    requires forall m :: i < m < |clocks| ==> clocks'[m] == clocks[m]
    ensures SyncedFrom(clocks', c, s, i + 1)
  {
    forall m | i + 1 <= m < |clocks'| ensures Synced(clocks', c, s, m) {
      assert Synced(clocks, c, s, m);
    }
  }

  // A leaf tick off the first wheel's step moves no other wheel.
  lemma OnlyLeafTicks(clocks: seq<int>, t: nat, s: nat)
    requires s >= 1 && t >= 1 && |clocks| >= 2 && HalfTurned(clocks, t, s, 1) && t % Pow(s, 1) != 0
    ensures SyncedBelow(clocks, t, s, |clocks|)
  {
    forall i | 0 <= i < |clocks| ensures Synced(clocks, t, s, i) {
      if i > 0 {
        assert SyncedFrom(clocks, t - 1, s, 1);
        ClockStep(clocks, t, s, i);
        NotMultipleAbove(t, s, 1, i);
      } else {
        assert SyncedBelow(clocks, t, s, 1);
      }
    }
  }

  lemma LeafTicked(clocks: seq<int>, c: nat, s: nat)
    requires s >= 1 && |clocks| >= 1 && SyncedBelow(clocks, c, s, |clocks|)
    ensures clocks[0] == c && HalfTurned(clocks[0 := c + 1], c + 1, s, 1)
  {
    assert Pow(s, 0) == 1;
    assert Synced(clocks, c, s, 0);
    assert SyncedFrom(clocks, c, s, 0);
    StillBefore(clocks, clocks[0 := c + 1], c, s, 0);
  }

  lemma WheelStepped(clocks: seq<int>, t: nat, s: nat, i: nat)
    requires s >= 1 && t >= 1 && i < |clocks| && HalfTurned(clocks, t, s, i) && clocks[i] + Pow(s, i) <= t
    ensures var clocks' := clocks[i := clocks[i] + Pow(s, i)]; HalfTurned(clocks', t, s, i + 1) && clocks'[i] == t
    ensures t % Pow(s, i) == 0
  {
    assert Synced(clocks, t - 1, s, i);
    ClockStep(clocks, t, s, i);
    var clocks' := clocks[i := clocks[i] + Pow(s, i)];
    forall m | 0 <= m < i + 1 ensures Synced(clocks', t, s, m) {
      assert m < i ==> Synced(clocks, t, s, m);
    }
    StillBefore(clocks, clocks', t - 1, s, i);
  }

  lemma WheelWaits(clocks: seq<int>, t: nat, s: nat, i: nat)
    requires s >= 1 && t >= 1 && i < |clocks| && HalfTurned(clocks, t, s, i) && clocks[i] + Pow(s, i) > t
    ensures HalfTurned(clocks, t, s, i + 1) && t % Pow(s, i) != 0
  {
    assert Synced(clocks, t - 1, s, i);
    ClockStep(clocks, t, s, i);
  }
}
