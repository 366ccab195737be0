// The wheel's lists as values: which list each timer is threaded into, and what moving timers
// between lists keeps.
module WheelQueues {
  import opened Arithmetic
  import opened Placement
  import opened Sequences
  import opened TimerNodes

  // steps[i][k] is the list of slot k of wheel i; loose is the local list of a cascade.
  datatype Queues = Queues(steps: seq<seq<seq<int>>>, overflow: seq<int>, loose: seq<int>)

  predicate InRange(q: Queues, p: Place) {
    p.Slot? ==> p.wheel < |q.steps| && p.step < |q.steps[p.wheel]|
  }

  function At(q: Queues, p: Place): seq<int>
    requires InRange(q, p)
  {
    match p
    case Slot(i, k) => q.steps[i][k]
    case Overflow => q.overflow
    case Loose => q.loose
  }

  function Put(q: Queues, p: Place, l: seq<int>): (r: Queues)
    requires InRange(q, p)
    ensures forall x :: InRange(r, x) <==> InRange(q, x)
    ensures forall x :: InRange(q, x) ==> At(r, x) == if x == p then l else At(q, x)
  {
    match p
    case Slot(i, k) => q.(steps := q.steps[i := q.steps[i][k := l]])
    case Overflow => q.(overflow := l)
    case Loose => q.(loose := l)
  }

  // The list at p holds exactly the timers whose links say p, once each.
  ghost predicate Holds(l: seq<int>, home: map<int, Place>, p: Place) {
    && NoDup(l)
    && (forall x :: x in l ==> x in home && home[x] == p)
    && (forall x :: x in home && home[x] == p ==> x in l)
  }

  // Every timer is in exactly one list, once, and its links say which.
  ghost predicate Threaded(q: Queues, home: map<int, Place>) {
    && (forall p :: InRange(q, p) ==> Holds(At(q, p), home, p))
    && (forall x :: x in home ==> InRange(q, home[x]))
  }

  function Without(l: seq<int>, x: int): seq<int> {
    if l == [] then [] else if l[0] == x then l[1..] else [l[0]] + Without(l[1..], x)
  }

  lemma {:induction false} WithoutMembers(l: seq<int>, x: int)
    requires NoDup(l)
    ensures NoDup(Without(l, x))
    ensures forall y :: y in Without(l, x) <==> y in l && y != x
  {
    if l != [] {
      assert l == [l[0]] + l[1..];
      assert l[0] !in l[1..];
      WithoutMembers(l[1..], x);
      assert l[0] !in Without(l[1..], x);
    }
  }

  lemma PushThreaded(q: Queues, home: map<int, Place>, p: Place, x: int)
    requires Threaded(q, home) && InRange(q, p) && x !in home
    ensures Threaded(Put(q, p, At(q, p) + [x]), home[x := p])
  {
    var r, home' := Put(q, p, At(q, p) + [x]), home[x := p];
    forall p' | InRange(r, p') ensures Holds(At(r, p'), home', p') {
      assert Holds(At(q, p'), home, p');
    }
  }

  lemma LeaveThreaded(q: Queues, home: map<int, Place>, x: int)
    requires Threaded(q, home) && x in home
    ensures Threaded(Put(q, home[x], Without(At(q, home[x]), x)), home - {x})
  {
    var p := home[x];
    assert Holds(At(q, p), home, p);
    WithoutMembers(At(q, p), x);
    var r, home' := Put(q, p, Without(At(q, p), x)), home - {x};
    forall p' | InRange(r, p') ensures Holds(At(r, p'), home', p') {
      assert Holds(At(q, p'), home, p');
    }
  }

  lemma PopFront(l: seq<int>)
    requires l != []
    ensures Without(l, l[0]) == l[1..]
  {
  }

  ghost function Loosened(home: map<int, Place>, p: Place): map<int, Place> {
    map x | x in home :: if home[x] == p then Loose else home[x]
  }

  // Splicing a whole list onto the empty local list.
  lemma SpliceThreaded(q: Queues, home: map<int, Place>, p: Place)
    requires Threaded(q, home) && InRange(q, p) && p != Loose && q.loose == []
    ensures Threaded(Put(Put(q, Loose, At(q, p)), p, []), Loosened(home, p))
  {
    var r := Put(Put(q, Loose, At(q, p)), p, []);
    var home' := Loosened(home, p);
    assert Holds(At(q, Loose), home, Loose);
    assert Holds(At(q, p), home, p);
    forall p' | InRange(r, p') ensures Holds(At(r, p'), home', p') {
      assert Holds(At(q, p'), home, p');
    }
  }

  // Where a timer may be at time c, while wheels from i on still have to be turned and leaf slot k
  // has not been emptied of the timers left behind.
  ghost predicate Fits(p: Place, next: int, c: nat, s: nat, n: nat, i: nat, k: nat)
    requires s >= 1
  {
    p == Loose || Good(p, next, c, s, n) || Due(p, next, c, s, n, i) || Stale(p, next, c, k)
  }

  ghost predicate AllFit(home: map<int, Place>, live: map<int, Timer>, c: nat, s: nat, n: nat, i: nat, k: nat)
    requires s >= 1 && home.Keys <= live.Keys
  {
    forall x :: x in home ==> Fits(home[x], live[x].next, c, s, n, i, k)
  }

  ghost predicate AllGood(home: map<int, Place>, live: map<int, Timer>, c: nat, s: nat, n: nat)
    requires s >= 1 && home.Keys <= live.Keys
  {
    forall x :: x in home ==> Good(home[x], live[x].next, c, s, n)
  }

  // Nothing that has been left behind in the slot hides behind a timer that is not due by now.
  ghost predicate Unblocked(l: seq<int>, live: map<int, Timer>, c: nat, now: int) {
    && (forall i :: 0 <= i < |l| ==> l[i] in live)
    && (forall i, j :: 0 <= i < j < |l| && live[l[j]].next < c ==> live[l[i]].next <= now)
  }

  lemma UnblockedIfDue(q: Queues, home: map<int, Place>, live: map<int, Timer>, p: Place, c: nat, now: int)
    requires Threaded(q, home) && home.Keys <= live.Keys && InRange(q, p)
    requires forall x :: x in home && home[x] == p ==> live[x].next <= now
    ensures Unblocked(At(q, p), live, c, now)
  {
    var l := At(q, p);
    assert Holds(l, home, p);
    forall i | 0 <= i < |l| ensures l[i] in live && live[l[i]].next <= now {
      var x := l[i];
      assert x in l;
    }
  }

  // The leaf clock ticks: what was well placed fits the new time.
  lemma TickAll(home: map<int, Place>, live: map<int, Timer>, c: nat, s: nat, n: nat)
    requires s >= 1 && n >= 1 && home.Keys <= live.Keys && AllGood(home, live, c, s, n)
    ensures AllFit(home, live, c + 1, s, n, 1, c % s)
  {
    forall x | x in home ensures Fits(home[x], live[x].next, c + 1, s, n, 1, c % s) {
      Tick(home[x], live[x].next, c, s, n);
    }
  }

  lemma SkipWheel(home: map<int, Place>, live: map<int, Timer>, c: nat, s: nat, n: nat, i: nat, k: nat)
    requires s >= 1 && 1 <= i <= n && home.Keys <= live.Keys && AllFit(home, live, c, s, n, i, k)
    requires c % Pow(s, i) != 0
    ensures AllFit(home, live, c, s, n, n + 1, k)
  {
    forall x | x in home ensures Fits(home[x], live[x].next, c, s, n, n + 1, k) {
      NoneDue(home[x], live[x].next, c, s, n, i);
    }
  }

  // Emptying the step that wheel i has reached takes out every timer due in that wheel, and only those.
  lemma StepLoosened(home: map<int, Place>, live: map<int, Timer>, c: nat, s: nat, n: nat, i: nat, k: nat)
    requires s >= 1 && 1 <= i < n && home.Keys <= live.Keys && AllFit(home, live, c, s, n, i, k)
    ensures var p := Slot(i, c / Pow(s, i) % s);
            && AllFit(Loosened(home, p), live, c, s, n, i + 1, k)
            && forall x :: x in home && home[x] == p ==> BeginsAt(live[x].next, c, s, i)
  {
    var p := Slot(i, c / Pow(s, i) % s);
    forall x | x in home
      ensures Fits(Loosened(home, p)[x], live[x].next, c, s, n, i + 1, k)
      ensures home[x] == p ==> BeginsAt(live[x].next, c, s, i)
    {
      assert Fits(home[x], live[x].next, c, s, n, i, k);
      CurrentStepNotGood(live[x].next, c, s, n, i);
    }
  }

  // The deadline lies in the step of wheel i that begins at c.
  ghost predicate BeginsAt(next: int, c: nat, s: nat, i: nat)
    requires s >= 1
  {
    next / Pow(s, i) == c / Pow(s, i) && c % Pow(s, i) == 0
  }

  lemma OverflowLoosened(home: map<int, Place>, live: map<int, Timer>, c: nat, s: nat, n: nat, k: nat)
    requires s >= 1 && home.Keys <= live.Keys && AllFit(home, live, c, s, n, n, k)
    ensures AllFit(Loosened(home, Overflow), live, c, s, n, n + 1, k)
  {
    forall x | x in home ensures Fits(Loosened(home, Overflow)[x], live[x].next, c, s, n, n + 1, k) {
      assert Fits(home[x], live[x].next, c, s, n, n, k);
    }
  }

  // The cut does the deadlines no harm up to then, and the next ones of timers that are due by then and go on stay
  // within 2^32 ticks of start.
  ghost predicate Near(live: map<int, Timer>, start: int, until: int, s: nat, n: nat)
    requires s >= 1
  {
    forall x :: x in live ==>
      HarmlessUntil(live[x].next, start, until, s, n) &&
        (live[x].next <= until && live[x].left != 1 ==> live[x].interval + until - start < WORD)
  }

  // So it is when all deadlines are within 2^32 ticks of start.
  lemma AllNear(live: map<int, Timer>, start: int, until: int, s: nat, n: nat)
    requires s >= 1 && forall x :: x in live ==> live[x].next - start < WORD
    requires forall x :: x in live && live[x].next <= until && live[x].left != 1 ==>
      live[x].interval + until - start < WORD
    ensures Near(live, start, until, s, n)
  {
    forall x | x in live ensures HarmlessUntil(live[x].next, start, until, s, n) {
      NearUntil(live[x].next, start, until, s, n);
    }
  }

  lemma UnblockedPush(l: seq<int>, live: map<int, Timer>, c: nat, now: int, x: int)
    requires Unblocked(l, live, c, now) && x in live
    requires live[x].next >= c || forall y :: y in l ==> live[y].next <= now
    ensures Unblocked(l + [x], live, c, now)
  {
    var r := l + [x];
    assert forall i :: 0 <= i < |l| ==> r[i] == l[i] && l[i] in l;
  }

  // Filing one timer keeps every other where it fits, and hides nothing in the slot left behind.
  lemma FileFits(q: Queues, home: map<int, Place>, live: map<int, Timer>, c: nat, s: nat, n: nat, i: nat, k: nat,
                 now: int, x: int, p: Place)
    requires s >= 1 && x in live && x !in home && home.Keys <= live.Keys && InRange(q, p)
    requires AllFit(home, live, c, s, n, i, k) && Good(p, live[x].next, c, s, n)
    requires InRange(q, Slot(0, k)) && Unblocked(At(q, Slot(0, k)), live, c, now)
    requires p == Slot(0, k) ==> live[x].next >= c || forall y :: y in At(q, p) ==> y in live && live[y].next <= now
    ensures AllFit(home[x := p], live, c, s, n, i, k)
    ensures Unblocked(At(Put(q, p, At(q, p) + [x]), Slot(0, k)), live, c, now)
  {
    if p == Slot(0, k) { UnblockedPush(At(q, p), live, c, now, x); }
  }

  // One more timer is well placed among the well placed exactly when the 32-bit cut does it no harm.
  lemma FiledWell(home: map<int, Place>, live: map<int, Timer>, clocks: seq<int>, t: Timer, c: nat, s: nat)
    requires 1 <= s < WORD && |clocks| >= 1 && SyncedBelow(clocks, c, s, |clocks|)
    requires home.Keys == live.Keys && t.id !in live
    ensures var p := FileFrom(t.next, clocks, s, 0);
            AllGood(home, live, c, s, |clocks|) ==>
              (AllGood(home[t.id := p], live[t.id := t], c, s, |clocks|) <==> CutHarmless(t.next, c, s, |clocks|))
  {
    FiledGoodIff(t.next, c, s, clocks);
    var home', live' := home[t.id := FileFrom(t.next, clocks, s, 0)], live[t.id := t];
    assert t.id in home' && live'[t.id] == t;
  }

  // A fired timer filed again under its next deadline.
  lemma RefileFits(q: Queues, home: map<int, Place>, live: map<int, Timer>, clocks: seq<int>, c: nat, s: nat,
                   k: nat, now: int, x: int)
    requires 1 <= s < WORD && |clocks| >= 1 && SyncedBelow(clocks, c, s, |clocks|) && c <= now
    requires x in live && x !in home && home.Keys <= live.Keys && Threaded(q, home)
    requires AllFit(home, live, c, s, |clocks|, |clocks| + 1, k) && CutHarmless(live[x].next, c, s, |clocks|)
    requires InRange(q, Slot(0, k)) && Unblocked(At(q, Slot(0, k)), live, c, now)
    requires InRange(q, FileFrom(live[x].next, clocks, s, 0))
    ensures var p := FileFrom(live[x].next, clocks, s, 0);
            && AllFit(home[x := p], live, c, s, |clocks|, |clocks| + 1, k)
            && Unblocked(At(Put(q, p, At(q, p) + [x]), Slot(0, k)), live, c, now)
  {
    var p := FileFrom(live[x].next, clocks, s, 0);
    FiledGood(live[x].next, c, s, clocks, 0, |clocks|);
    if p == Slot(0, k) && live[x].next < c {
      assert Holds(At(q, p), home, p);
      forall y | y in At(q, p) ensures live[y].next <= now {
        assert Fits(home[y], live[y].next, c, s, |clocks|, |clocks| + 1, k);
        if Good(p, live[y].next, c, s, |clocks|) { GoodInCurrentSlotIsDue(live[y].next, c, s, |clocks|); }
      }
    }
    FileFits(q, home, live, c, s, |clocks|, |clocks| + 1, k, now, x, p);
  }

  // Taking the front timer out of the slot, and then changing or dropping it, disturbs no other.
  lemma FrontLeaves(q: Queues, home: map<int, Place>, live: map<int, Timer>, live': map<int, Timer>,
                    c: nat, s: nat, n: nat, k: nat, now: int)
    requires s >= 1 && home.Keys <= live.Keys && Threaded(q, home) && AllFit(home, live, c, s, n, n + 1, k)
    requires InRange(q, Slot(0, k)) && At(q, Slot(0, k)) != [] && Unblocked(At(q, Slot(0, k)), live, c, now)
    requires var x := At(q, Slot(0, k))[0]; live - {x} == live' - {x}
    ensures var l := At(q, Slot(0, k));
            && (home - {l[0]}).Keys <= live'.Keys
            && AllFit(home - {l[0]}, live', c, s, n, n + 1, k)
            && Unblocked(l[1..], live', c, now)
  {
    var l := At(q, Slot(0, k));
    var x := l[0];
    assert Holds(l, home, Slot(0, k));
    forall y | y in live && y != x ensures y in live' && live'[y] == live[y] {
      assert y in live - {x};
      assert live[y] == (live - {x})[y];
      assert live'[y] == (live' - {x})[y];
    }
    assert forall i :: 0 <= i < |l[1..]| ==> l[1..][i] == l[i + 1] && l[i + 1] != x;
  }

  // When the front of the slot is not due, nothing left behind is in it any more.
  lemma SlotSettled(q: Queues, home: map<int, Place>, live: map<int, Timer>, c: nat, s: nat, n: nat, k: nat, now: int)
    requires s >= 1 && home.Keys <= live.Keys && Threaded(q, home) && q.loose == []
    requires AllFit(home, live, c, s, n, n + 1, k) && c <= now
    requires InRange(q, Slot(0, k)) && Unblocked(At(q, Slot(0, k)), live, c, now)
    requires var l := At(q, Slot(0, k)); l == [] || (l[0] in live && live[l[0]].next > now)
    ensures AllGood(home, live, c, s, n)
    ensures k == c % s ==> At(q, Slot(0, k)) == []
  {
    var l := At(q, Slot(0, k));
    assert Holds(l, home, Slot(0, k));
    assert Holds(At(q, Loose), home, Loose);
    assert forall j :: 0 <= j < |l| ==> live[l[j]].next >= c;
    forall x | x in home ensures Good(home[x], live[x].next, c, s, n) {
      assert Fits(home[x], live[x].next, c, s, n, n + 1, k);
      assert home[x] == Slot(0, k) ==> x in l;
    }
    if k == c % s && l != [] {
      var x := l[0];
      assert x in l && home[x] == Slot(0, k);
      GoodInCurrentSlotIsDue(live[x].next, c, s, n);
    }
  }

  // Once the clock has reached the time and the present slot is empty, every deadline is ahead.
  lemma AllAhead(q: Queues, home: map<int, Place>, live: map<int, Timer>, c: nat, s: nat, n: nat)
    requires s >= 1 && home.Keys == live.Keys && Threaded(q, home) && AllGood(home, live, c, s, n)
    requires InRange(q, Slot(0, c % s)) && At(q, Slot(0, c % s)) == []
    ensures forall x :: x in live ==> live[x].next > c
  {
    assert Holds(At(q, Slot(0, c % s)), home, Slot(0, c % s));
    forall x | x in live ensures live[x].next > c {
      assert x in home;
      GoodElsewhereIsAhead(home[x], live[x].next, c, s, n);
    }
  }
}
