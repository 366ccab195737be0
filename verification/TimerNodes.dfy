// One timer, and what an update does to it regardless of which timer container holds it.
module TimerNodes {

  // A callback is asked with (timer id, timer type, remaining times) and says whether to go on.
  type Callback = (int, int, int) -> bool

  // The observable state of one timer; a negative left count repeats for ever.
  datatype Timer = Timer(id: int, kind: int, next: int, interval: int, left: int, fromNow: bool)

  // The remaining count the callback is told.
  function Told(t: Timer): int {
    if t.left > 0 then t.left - 1 else t.left
  }

  function TimedOut(t: Timer, cb: Callback): Timer {
    if t.left == 0 then t
    else t.(left := if cb(t.id, t.kind, Told(t)) then Told(t) else 0)
  }

  function Advanced(t: Timer, now: int): Timer {
    t.(next := if t.fromNow then now + t.interval else t.next + t.interval)
  }

  class TimerNode {
    var id: int
    var kind: int
    var next: int
    var interval: int
    var left: int
    var fromNow: bool
    var calling: bool

    ghost function Rec(): Timer
      reads this
    {
      Timer(id, kind, next, interval, left, fromNow)
    }

    constructor ()
      ensures Rec() == Timer(0, 0, 0, 0, 0, false) && !calling
    {
      id, kind, next, interval, left := 0, 0, 0, 0, 0;
      fromNow, calling := false, false;
    }

    // Rejects a zero count and a period that is not positive; a null callback never gets here.
    method Init(id: int, kind: int, start: int, interval: int, times: int, fromNow: bool) returns (ok: bool)
      modifies this
      ensures calling == old(calling)
      ensures ok <==> times != 0 && interval > 0
      ensures Rec() == if ok then Timer(id, kind, start, interval, times, fromNow) else old(Rec())
    {
      if times == 0 || interval <= 0 { return false; }
      this.id, this.kind, this.next, this.interval := id, kind, start, interval;
      this.left, this.fromNow := times, fromNow;
      return true;
    }

    method TimeOut(cb: Callback) returns (called: bool)
      requires !calling
      modifies this
      ensures called <==> old(left) != 0
      ensures !calling && Rec() == TimedOut(old(Rec()), cb)
    {
      if left == 0 { return false; }
      if left > 0 { left := left - 1; }
      calling := true;
      var goOn := cb(id, kind, left);
      if !goOn { left := 0; }
      calling := false;
      return true;
    }

    // While the callback runs a removal only zeroes the count; the caller of the callback finishes it.
    method RemoveIfCalling() returns (deferred: bool)
      modifies this
      ensures deferred == old(calling) && calling == old(calling)
      ensures Rec() == if deferred then old(Rec()).(left := 0) else old(Rec())
    {
      if calling {
        left := 0;
        return true;
      }
      return false;
    }

    method NextTime(now: int)
      modifies this
      ensures calling == old(calling) && Rec() == Advanced(old(Rec()), now)
    {
      if fromNow { next := now + interval; } else { next := next + interval; }
    }
  }
}

// What a timer container promises, timer by timer: the reference both containers are held to.
module TimerSpec {
  import opened TimerNodes

  const MAX_ID: int := 0x7FFF_FFFF_FFFF_FFFF

  // The timer after every firing it owes by now.
  ghost function Settle(t: Timer, now: int, cb: Callback): (r: Timer)
    requires t.interval > 0
    ensures r.left != 0 ==> r.next > now
    decreases now + 1 - t.next
  {
    if t.left == 0 || t.next > now then t
    else
      var f := TimedOut(t, cb);
      if f.left == 0 then f else Settle(Advanced(f, now), now, cb)
  }

  // The remaining counts its callback is told while it settles, in order.
  ghost function Firings(t: Timer, now: int, cb: Callback): seq<int>
    requires t.interval > 0
    decreases now + 1 - t.next
  {
    if t.left == 0 || t.next > now then []
    else
      var f := TimedOut(t, cb);
      [Told(t)] + if f.left == 0 then [] else Firings(Advanced(f, now), now, cb)
  }

  // A container as its user sees it: the clock, the live timers, the last id given out, and for
  // every id the callbacks made so far.
  datatype Timers = Timers(now: int, live: map<int, Timer>, lastId: int, calls: map<int, seq<int>>)

  ghost predicate LiveOk(live: map<int, Timer>) {
    LiveOkBut(live, {})
  }

  // The timers in out are being fired: they may have run down to zero.
  ghost predicate LiveOkBut(live: map<int, Timer>, out: set<int>) {
    forall id :: id in live ==>
      live[id].id == id && 1 <= id <= MAX_ID && live[id].interval > 0 && (id !in out ==> live[id].left != 0)
  }

  ghost predicate Ok(st: Timers) {
    LiveOk(st.live) && st.live.Keys <= st.calls.Keys && 0 <= st.lastId <= MAX_ID
  }

  function FreshId(last: int): int {
    if last >= MAX_ID then 1 else last + 1
  }

  ghost function Opened(calls: map<int, seq<int>>, id: int): map<int, seq<int>> {
    if id in calls then calls else calls[id := []]
  }

  ghost function Added(st: Timers, callable: bool, kind: int, start: int, interval: int, times: int,
                       fromNow: bool): (r: (Timers, int)) {
    var id := FreshId(st.lastId);
    if !callable || times == 0 || start + interval <= 0 then (st, 0)
    else if interval <= 0 || id in st.live then (st.(lastId := id), 0)
    else (WithTimer(st.(lastId := id), Timer(id, kind, st.now + start, interval, times, fromNow)), id)
  }

  ghost function WithTimer(st: Timers, t: Timer): Timers {
    st.(live := st.live[t.id := t], calls := Opened(st.calls, t.id))
  }

  ghost function Removed(st: Timers, id: int): (Timers, bool) {
    (st.(live := st.live - {id}), id in st.live)
  }

  ghost function Updated(st: Timers, delta: int, cb: Callback): Timers
    requires LiveOk(st.live)
  {
    if delta <= 0 then st
    else
      var now := st.now + delta;
      Timers(now,
             map id | id in st.live && Settle(st.live[id], now, cb).left != 0 :: Settle(st.live[id], now, cb),
             st.lastId,
             map id | id in st.calls :: st.calls[id] + if id in st.live then Firings(st.live[id], now, cb) else [])
  }

  // Part of the way through an update: what is still owed, added to what was done, is the whole.
  ghost predicate Progress(live0: map<int, Timer>, calls0: map<int, seq<int>>,
                           live: map<int, Timer>, calls: map<int, seq<int>>, now: int, cb: Callback)
  {
    && LiveOk(live0) && LiveOk(live)
    && live.Keys <= live0.Keys <= calls0.Keys && calls.Keys == calls0.Keys
    && (forall id :: id in calls ==> id !in live0 ==> calls[id] == calls0[id])
    && (forall id :: id in live0 ==> Owed(live0, calls0, live, calls, now, cb, id))
  }

  ghost predicate Owed(live0: map<int, Timer>, calls0: map<int, seq<int>>,
                       live: map<int, Timer>, calls: map<int, seq<int>>, now: int, cb: Callback, id: int)
    requires LiveOk(live0) && LiveOk(live) && id in live0 && id in calls0 && id in calls
  {
    if id in live then
      && Settle(live[id], now, cb) == Settle(live0[id], now, cb)
      && calls[id] + Firings(live[id], now, cb) == calls0[id] + Firings(live0[id], now, cb)
    else
      && Settle(live0[id], now, cb).left == 0
      && calls[id] == calls0[id] + Firings(live0[id], now, cb)
  }

  lemma ProgressStart(live: map<int, Timer>, calls: map<int, seq<int>>, now: int, cb: Callback)
    requires LiveOk(live) && live.Keys <= calls.Keys
    ensures Progress(live, calls, live, calls, now, cb)
  {
  }

  // The effect of firing one due timer once.
  ghost function FiredLive(live: map<int, Timer>, id: int, now: int, cb: Callback): map<int, Timer>
    requires id in live
  {
    var f := TimedOut(live[id], cb);
    if f.left == 0 then live - {id} else live[id := Advanced(f, now)]
  }

  ghost function Fired(st: Timers, id: int, cb: Callback): Timers
    requires id in st.live && id in st.calls
  {
    st.(live := FiredLive(st.live, id, st.now, cb), calls := st.calls[id := st.calls[id] + [Told(st.live[id])]])
  }

  lemma ProgressFire(live0: map<int, Timer>, calls0: map<int, seq<int>>,
                     live: map<int, Timer>, calls: map<int, seq<int>>, now: int, cb: Callback, id: int)
    requires Progress(live0, calls0, live, calls, now, cb)
    requires id in live && live[id].next <= now
    ensures Progress(live0, calls0, FiredLive(live, id, now, cb), calls[id := calls[id] + [Told(live[id])]], now, cb)
  {
    var live' := FiredLive(live, id, now, cb);
    var calls' := calls[id := calls[id] + [Told(live[id])]];
    assert LiveOk(live');
    forall x | x in live0 ensures Owed(live0, calls0, live', calls', now, cb, x) {
      assert Owed(live0, calls0, live, calls, now, cb, x);
      if x == id {
        var t := live[id];
        var f := TimedOut(t, cb);
        var rest := if f.left == 0 then [] else Firings(Advanced(f, now), now, cb);
        assert Firings(t, now, cb) == [Told(t)] + rest;
        assert calls[id] + ([Told(t)] + rest) == calls[id] + [Told(t)] + rest;
        if f.left == 0 { assert calls[id] + [Told(t)] + [] == calls'[id]; }
      }
    }
  }

  // The same when the next deadline is set before a timer that has run down is dropped.
  ghost function Called(st: Timers, id: int, cb: Callback): Timers
    requires id in st.live && id in st.calls
  {
    st.(live := st.live[id := Advanced(TimedOut(st.live[id], cb), st.now)],
        calls := st.calls[id := st.calls[id] + [Told(st.live[id])]])
  }

  // A call is the count and then the new deadline.
  lemma CalledTwice(st: Timers, id: int, cb: Callback)
    requires id in st.live && id in st.calls
    ensures var r := st.(live := st.live[id := TimedOut(st.live[id], cb)],
                         calls := st.calls[id := st.calls[id] + [Told(st.live[id])]]);
            Called(st, id, cb) == r.(live := r.live[id := Advanced(r.live[id], st.now)])
  {
    var a, b := TimedOut(st.live[id], cb), Advanced(TimedOut(st.live[id], cb), st.now);
    assert st.live[id := a][id := b] == st.live[id := b];
  }

  lemma FiredIsCalled(st: Timers, id: int, cb: Callback)
    requires id in st.live && id in st.calls
    ensures var r := Called(st, id, cb);
            Fired(st, id, cb) == if r.live[id].left == 0 then r.(live := r.live - {id}) else r
  {
    assert Called(st, id, cb).live - {id} == st.live - {id};
  }

  // One round of an update loop, and its end, as seen from the loop.
  ghost predicate Running(before: Timers, st: Timers, delta: int, n: nat, cb: Callback) {
    && st.now == before.now + delta && st.lastId == before.lastId
    && (forall id :: id in st.live ==> 1 <= id <= n)
    && Progress(before.live, before.calls, st.live, st.calls, st.now, cb)
  }

  lemma RunningStart(before: Timers, delta: int, cb: Callback) returns (n: nat)
    requires Ok(before)
    ensures Running(before, before.(now := before.now + delta), delta, n, cb)
  {
    n := IdBound(before.live);
    ProgressStart(before.live, before.calls, before.now + delta, cb);
  }

  lemma RunningFire(before: Timers, st: Timers, delta: int, n: nat, cb: Callback, id: int)
    requires Running(before, st, delta, n, cb) && id in st.live && id in st.calls && st.live[id].next <= st.now
    ensures Running(before, Fired(st, id, cb), delta, n, cb)
    ensures Debt(Fired(st, id, cb).live, st.now, n) < Debt(st.live, st.now, n)
  {
    ProgressFire(before.live, before.calls, st.live, st.calls, st.now, cb, id);
    DebtFalls(st.live, st.now, cb, id, n);
  }

  lemma RunningEnd(before: Timers, st: Timers, delta: int, n: nat, cb: Callback)
    requires Ok(before) && delta > 0 && Running(before, st, delta, n, cb)
    requires forall id :: id in st.live ==> st.live[id].next > st.now
    ensures st == Updated(before, delta, cb)
  {
    ProgressEnd(before, st.live, st.calls, delta, cb);
  }

  lemma ProgressEnd(st: Timers, live: map<int, Timer>, calls: map<int, seq<int>>, delta: int, cb: Callback)
    requires Ok(st) && delta > 0
    requires Progress(st.live, st.calls, live, calls, st.now + delta, cb)
    requires forall id :: id in live ==> live[id].next > st.now + delta
    ensures Updated(st, delta, cb) == Timers(st.now + delta, live, st.lastId, calls)
  {
    var now := st.now + delta;
    var r := Updated(st, delta, cb);
    forall id | id in st.live
      ensures id in live <==> id in r.live
      ensures id in live ==> live[id] == r.live[id]
      ensures calls[id] == r.calls[id]
    {
      assert Owed(st.live, st.calls, live, calls, now, cb, id);
      if id in live { assert calls[id] + [] == calls[id]; }
    }
    assert r.live == live;
    forall id | id in st.calls ensures calls[id] == r.calls[id] {
      if id !in st.live { assert st.calls[id] + [] == st.calls[id]; }
    }
    assert r.calls == calls;
  }

  // How far all timers with ids up to n are behind now; every firing lowers it.
  ghost function Debt(live: map<int, Timer>, now: int, n: nat): nat {
    if n == 0 then 0
    else Debt(live, now, n - 1) + if n in live && live[n].next <= now then now + 1 - live[n].next else 0
  }

  lemma {:induction false} DebtSame(live: map<int, Timer>, live': map<int, Timer>, now: int, id: int, n: nat)
    requires live' - {id} == live - {id} && id > n
    ensures Debt(live', now, n) == Debt(live, now, n)
  {
    if n > 0 {
      DebtSame(live, live', now, id, n - 1);
      assert n in live' <==> n in live' - {id};
      assert n in live <==> n in live - {id};
      assert n in live ==> live[n] == (live - {id})[n] && live'[n] == (live' - {id})[n];
    }
  }

  lemma {:induction false} DebtFalls(live: map<int, Timer>, now: int, cb: Callback, id: int, n: nat)
    requires LiveOk(live) && id in live && live[id].next <= now && id <= n
    ensures Debt(FiredLive(live, id, now, cb), now, n) < Debt(live, now, n)
  {
    var live' := FiredLive(live, id, now, cb);
    assert live' - {id} == live - {id};
    if n == id {
      DebtSame(live, live', now, id, n - 1);
    } else {
      DebtFalls(live, now, cb, id, n - 1);
      assert n in live' <==> n in live;
    }
  }

  lemma IdBound(live: map<int, Timer>) returns (n: nat)
    requires LiveOk(live)
    ensures forall id :: id in live ==> 1 <= id <= n
  {
    n := MAX_ID;
  }
}
