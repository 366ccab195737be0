// What an update does to a timer, said by its deadlines, its count and what its callback answers, and not by the
// steps of the update.
module TimerLaws {
  import opened Arithmetic
  import opened TimerNodes
  import opened TimerSpec

  // The deadline after n firings by now.
  function Deadline(t: Timer, n: nat, now: int): int {
    if n > 0 && t.fromNow then now + t.interval else t.next + n * t.interval
  }

  // The count after n firings.
  function Remaining(t: Timer, n: nat): int {
    if t.left > 0 then t.left - n else t.left
  }

  // The last firing was the last of all: the count ran out, or the callback did not want to go on.
  ghost predicate Over(t: Timer, f: seq<int>, cb: Callback) {
    f != [] && (f[|f| - 1] == 0 || !cb(t.id, t.kind, f[|f| - 1]))
  }

  // What a timer owes by now: it counts down, or repeats for ever; all but the last firing were accepted; no
  // deadline was still ahead when it fired, and the next one is, unless it is over.
  ghost predicate Owes(t: Timer, now: int, cb: Callback, f: seq<int>) {
    && (t.left > 0 ==> |f| <= t.left)
    && (forall i :: 0 <= i < |f| ==> f[i] == if t.left > 0 then t.left - 1 - i else t.left)
    && (forall i :: 0 <= i < |f| - 1 ==> cb(t.id, t.kind, f[i]))
    && (f != [] ==> Deadline(t, |f| - 1, now) <= now)
    && (Over(t, f, cb) || Deadline(t, |f|, now) > now)
  }

  // It is called just so, and what is left of it follows from that.
  lemma {:induction false} Fires(t: Timer, now: int, cb: Callback)
    requires t.interval > 0 && t.left != 0
    ensures var f, r := Firings(t, now, cb), Settle(t, now, cb);
            && Owes(t, now, cb, f) && (r.left == 0 <==> Over(t, f, cb))
            && (r.left != 0 ==> r == t.(next := Deadline(t, |f|, now), left := Remaining(t, |f|)))
    decreases now + 1 - t.next
  {
    if t.next <= now {
      var f := TimedOut(t, cb);
      if f.left != 0 {
        var u := Advanced(f, now);
        Fires(u, now, cb);
        OneMoreFired(t, u, now, cb, Firings(u, now, cb));
      }
    }
  }

  lemma OneMoreFired(t: Timer, u: Timer, now: int, cb: Callback, f: seq<int>)
    requires t.interval > 0 && t.left != 0 && t.next <= now && TimedOut(t, cb).left != 0
    requires u == Advanced(TimedOut(t, cb), now) && Owes(u, now, cb, f)
    ensures var g := [Told(t)] + f;
            && Owes(t, now, cb, g) && (Over(u, f, cb) <==> Over(t, g, cb))
            && Deadline(u, |f|, now) == Deadline(t, |g|, now) && Remaining(u, |f|) == Remaining(t, |g|)
  {
    var g := [Told(t)] + f;
    assert forall i :: 0 < i < |g| ==> g[i] == f[i - 1];
    assert Deadline(u, |f|, now) == Deadline(t, |g|, now) by { Distribute(|f|, -1, t.interval); }
    if f != [] {
      assert Deadline(u, |f| - 1, now) == Deadline(t, |f|, now) by { Distribute(|f| - 1, -1, t.interval); }
    }
  }

  // And in no other way.
  lemma OwedIff(t: Timer, now: int, cb: Callback, f: seq<int>)
    requires t.interval > 0 && t.left != 0
    ensures f == Firings(t, now, cb) <==> Owes(t, now, cb, f)
  {
    Fires(t, now, cb);
    if Owes(t, now, cb, f) {
      var g := Firings(t, now, cb);
      if |f| < |g| { NotShorter(t, now, cb, f, g); }
      if |g| < |f| { NotShorter(t, now, cb, g, f); }
    }
  }

  lemma NotShorter(t: Timer, now: int, cb: Callback, f: seq<int>, g: seq<int>)
    requires t.interval > 0 && t.left != 0 && Owes(t, now, cb, f) && Owes(t, now, cb, g)
    ensures |f| >= |g|
  {
    if |f| < |g| {
      assert f != [] ==> f[|f| - 1] == g[|f| - 1];
      DivMonoMul(|f|, |g| - 1, t.interval);
    }
  }

  // A callback that refuses ends its timer, whatever is left of the count.
  lemma RefusalEnds(t: Timer, now: int, cb: Callback)
    requires t.interval > 0 && t.left != 0 && t.next <= now
    requires !cb(t.id, t.kind, if t.left > 0 then t.left - 1 else t.left)
    ensures Settle(t, now, cb).left == 0 && |Firings(t, now, cb)| == 1
  {
    Fires(t, now, cb);
    NotShorter(t, now, cb, [if t.left > 0 then t.left - 1 else t.left], Firings(t, now, cb));
  }

  // What an update makes of the state: every timer is called as it owes, and is dropped just if that was all.
  lemma UpdateOwes(st: Timers, delta: int, cb: Callback, id: int) returns (f: seq<int>)
    requires Ok(st) && delta > 0 && id in st.live
    ensures var t, now, r := st.live[id], st.now + delta, Updated(st, delta, cb);
            && Owes(t, now, cb, f) && r.calls[id] == st.calls[id] + f && (id in r.live <==> !Over(t, f, cb))
            && (id in r.live ==> r.live[id] == t.(next := Deadline(t, |f|, now), left := Remaining(t, |f|)))
  {
    f := Firings(st.live[id], st.now + delta, cb);
    Fires(st.live[id], st.now + delta, cb);
  }

  // Nothing else changes but the clock; which does not go back.
  lemma UpdateKeeps(st: Timers, delta: int, cb: Callback)
    requires Ok(st)
    ensures var r := Updated(st, delta, cb);
            && r.now == (if delta > 0 then st.now + delta else st.now) && r.lastId == st.lastId
            && r.calls.Keys == st.calls.Keys && r.live.Keys <= st.live.Keys
            && (forall id :: id in st.calls && id !in st.live ==> r.calls[id] == st.calls[id])
            && (delta <= 0 ==> r.live == st.live && r.calls == st.calls)
  {
    var r := Updated(st, delta, cb);
    if delta > 0 {
      forall id | id in st.calls && id !in st.live ensures r.calls[id] == st.calls[id] {
        assert st.calls[id] + [] == st.calls[id];
      }
    }
  }

  // At a fixed rate it makes no difference whether time passes in one update or in two.
  lemma {:induction false} SettleTwice(t: Timer, mid: int, now: int, cb: Callback)
    requires t.interval > 0 && !t.fromNow && mid <= now
    ensures var u := Settle(t, mid, cb);
            && u.interval > 0 && Settle(u, now, cb) == Settle(t, now, cb)
            && Firings(t, mid, cb) + Firings(u, now, cb) == Firings(t, now, cb)
    decreases mid + 1 - t.next
  {
    SettleKeeps(t, mid, cb);
    if t.left != 0 && t.next <= mid {
      var f, rest := TimedOut(t, cb), Firings(Settle(t, mid, cb), now, cb);
      if f.left != 0 {
        var u := Advanced(f, mid);
        SettleTwice(u, mid, now, cb);
        assert [Told(t)] + Firings(u, mid, cb) + rest == [Told(t)] + (Firings(u, mid, cb) + rest);
      } else {
        assert [Told(t)] + [] + rest == [Told(t)] + [];
      }
    }
  }

  lemma {:induction false} SettleKeeps(t: Timer, now: int, cb: Callback)
    requires t.interval > 0
    ensures var r := Settle(t, now, cb);
            r.id == t.id && r.kind == t.kind && r.interval == t.interval && r.fromNow == t.fromNow
    decreases now + 1 - t.next
  {
    if t.left != 0 && t.next <= now && TimedOut(t, cb).left != 0 {
      SettleKeeps(Advanced(TimedOut(t, cb), now), now, cb);
    }
  }

  lemma UpdateOk(st: Timers, delta: int, cb: Callback)
    requires Ok(st)
    ensures Ok(Updated(st, delta, cb))
  {
    if delta > 0 {
      var now := st.now + delta;
      forall id | id in st.live
        ensures Settle(st.live[id], now, cb).id == id && Settle(st.live[id], now, cb).interval > 0
      {
        SettleKeeps(st.live[id], now, cb);
      }
    }
  }

  lemma UpdateTwice(st: Timers, a: nat, b: nat, cb: Callback)
    requires Ok(st) && forall id :: id in st.live ==> !st.live[id].fromNow
    ensures Ok(Updated(st, a, cb)) && Updated(Updated(st, a, cb), b, cb) == Updated(st, a + b, cb)
  {
    hide Settle, Firings;
    UpdateOk(st, a, cb);
    if a > 0 && b > 0 {
      var r, q := Updated(Updated(st, a, cb), b, cb), Updated(st, a + b, cb);
      assert r.live == q.live by { LeftTwice(st, a, b, cb); }
      forall id | id in st.calls ensures r.calls[id] == q.calls[id] { CalledTwiceOver(st, a, b, cb, id); }
      assert r.calls == q.calls;
    }
  }

  lemma LeftTwice(st: Timers, a: nat, b: nat, cb: Callback)
    requires Ok(st) && (forall x :: x in st.live ==> !st.live[x].fromNow) && a > 0 && b > 0
    requires LiveOk(Updated(st, a, cb).live)
    ensures Updated(Updated(st, a, cb), b, cb).live == Updated(st, a + b, cb).live
  {
    hide Updated;
    var r, q := Updated(Updated(st, a, cb), b, cb).live, Updated(st, a + b, cb).live;
    UpdateKeeps(st, a, cb);
    UpdateKeeps(st, a + b, cb);
    OnlyFewer(Updated(st, a, cb), b, cb);
    forall id | id in st.live
      ensures id in r <==> id in q
      ensures id in r ==> r[id] == q[id]
    {
      LeftTwiceAt(st, a, b, cb, id);
    }
    assert r == q;
  }

  lemma OnlyFewer(st: Timers, delta: int, cb: Callback)
    requires LiveOk(st.live)
    ensures Updated(st, delta, cb).live.Keys <= st.live.Keys
  {
    hide Settle, Firings;
  }

  lemma LeftTwiceAt(st: Timers, a: nat, b: nat, cb: Callback, id: int)
    requires Ok(st) && id in st.live && !st.live[id].fromNow && a > 0 && b > 0 && LiveOk(Updated(st, a, cb).live)
    ensures var r, q := Updated(Updated(st, a, cb), b, cb).live, Updated(st, a + b, cb).live;
            (id in r <==> id in q) && (id in r ==> r[id] == q[id])
  {
    hide Firings, Settle;
    SettleTwice(st.live[id], st.now + a, st.now + a + b, cb);
    NoneLeft(st.live[id], st.now + a, st.now + a + b, cb);
  }

  lemma NoneLeft(t: Timer, mid: int, now: int, cb: Callback)
    requires t.interval > 0
    ensures var u := Settle(t, mid, cb); u.left == 0 && u.interval > 0 ==> Settle(u, now, cb).left == 0
  {
  }

  lemma CalledTwiceOver(st: Timers, a: nat, b: nat, cb: Callback, id: int)
    requires Ok(st) && (forall x :: x in st.live ==> !st.live[x].fromNow) && a > 0 && b > 0 && id in st.calls
    requires LiveOk(Updated(st, a, cb).live)
    ensures Updated(Updated(st, a, cb), b, cb).calls[id] == Updated(st, a + b, cb).calls[id]
  {
    if id in st.live {
      var t, mid, now := st.live[id], st.now + a, st.now + a + b;
      SettleTwice(t, mid, now, cb);
      assert st.calls[id] + Firings(t, mid, cb) + Firings(Settle(t, mid, cb), now, cb)
          == st.calls[id] + (Firings(t, mid, cb) + Firings(Settle(t, mid, cb), now, cb));
    } else {
      assert st.calls[id] + [] == st.calls[id];
    }
  }

  // The callback never asks to stop.
  ghost predicate GoesOn(t: Timer, cb: Callback) {
    forall left :: cb(t.id, t.kind, left)
  }

  // How often a timer at a fixed rate is due by now.
  function DueCount(t: Timer, now: int): nat
    requires t.interval > 0
  {
    if t.next > now then 0 else
      assert (now - t.next) / t.interval >= 0;
      (now - t.next) / t.interval + 1
  }

  lemma DueIff(t: Timer, now: int, k: nat)
    requires t.interval > 0
    ensures k < DueCount(t, now) <==> t.next + k * t.interval <= now
  {
    if t.next <= now {
      var q, r := DivMod(now - t.next, t.interval);
      if k <= q {
        DivMonoMul(k, q, t.interval);
      } else {
        DivMonoMul(q + 1, k, t.interval);
        Distribute(q, -1, t.interval);
      }
    }
  }

  // At a fixed rate a timer fires once for every deadline it has reached, up to its count, and its
  // next deadline follows the last one fired by one interval.
  lemma FixedRate(t: Timer, now: int, cb: Callback)
    requires t.interval > 0 && t.left != 0 && !t.fromNow && GoesOn(t, cb)
    ensures var n := DueCount(t, now);
            |Firings(t, now, cb)| == if t.left > 0 && t.left < n then t.left else n
    ensures var r, n := Settle(t, now, cb), DueCount(t, now);
            && (t.left < 0 ==> r == t.(next := t.next + n * t.interval))
            && (t.left > 0 && t.left <= n ==> r.left == 0)
            && (t.left > n ==> r == t.(next := t.next + n * t.interval, left := t.left - n))
  {
    var f := Firings(t, now, cb);
    Fires(t, now, cb);
    DueIff(t, now, |f|);
    if f != [] { DueIff(t, now, |f| - 1); }
  }

  // Counting from now, a due timer fires exactly once in an update, however late it is.
  lemma OncePerUpdate(t: Timer, now: int, cb: Callback)
    requires t.interval > 0 && t.left != 0 && t.fromNow && t.next <= now
    ensures Firings(t, now, cb) == [if t.left > 0 then t.left - 1 else t.left]
    ensures var r := Settle(t, now, cb); r.left != 0 ==> r.next == now + t.interval
  {
    Fires(t, now, cb);
  }
}
