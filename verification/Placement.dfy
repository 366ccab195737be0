// Where a timer belongs in the hierarchical wheel, as arithmetic on its deadline and the clock.
//
// Wheel i has s slots of width s^i. Slot k of wheel i holds the timers whose deadline falls, in
// units of s^i, on a number congruent to k modulo s. Deadlines too far for the last of the n
// wheels wait in the overflow list until the last wheel wraps.
module Placement {
  import opened Arithmetic

  // The list a timer's links currently thread it into. Loose is the local list of a cascade.
  datatype Place = Slot(wheel: nat, step: nat) | Overflow | Loose

  // Distance in steps from the wheel's clock, cut to 32 bits as the source does.
  function Offset(next: int, now: int, interval: int): (o: int)
    requires interval > 0
    ensures 0 <= o < WORD
  {
    if next > now then (next / interval - now / interval) % WORD else 0
  }

  function SlotIndex(next: int, now: int, interval: int, count: nat): (k: nat)
    requires interval > 0 && count > 0
    ensures k < count
  {
    (Offset(next, now, interval) + now / interval) % count
  }

  // The first wheel from i on that accepts the deadline, or the overflow list.
  function FileFrom(next: int, clocks: seq<int>, s: nat, i: nat): (p: Place)
    requires s >= 1 && i <= |clocks|
    ensures p != Loose
    ensures p.Slot? ==> i <= p.wheel < |clocks| && p.step < s
    decreases |clocks| - i
  {
    if i == |clocks| then Overflow
    else if Offset(next, clocks[i], Pow(s, i)) < s then Slot(i, SlotIndex(next, clocks[i], Pow(s, i), s))
    else FileFrom(next, clocks, s, i + 1)
  }

  // Wheel i's clock has reached the last multiple of its step not after c.
  ghost predicate Synced(clocks: seq<int>, c: nat, s: nat, i: nat)
    requires s >= 1
  {
    i < |clocks| && clocks[i] == c / Pow(s, i) * Pow(s, i)
  }

  ghost predicate SyncedBelow(clocks: seq<int>, c: nat, s: nat, j: nat)
    requires s >= 1
  {
    j <= |clocks| && forall i :: 0 <= i < j ==> Synced(clocks, c, s, i)
  }

  // The place a deadline may have when the time is c.
  ghost predicate Good(p: Place, next: int, c: nat, s: nat, n: nat)
    requires s >= 1
  {
    match p
    case Slot(i, k) =>
      && i < n
      && (if i == 0 then (next <= c && k == c % s) || (c < next < c + s && k == next % s)
          else c / Pow(s, i) < next / Pow(s, i) < c / Pow(s, i) + s && k == next / Pow(s, i) % s)
    case Overflow => c / Pow(s, n) < next / Pow(s, n)
    case Loose => false
  }

  // Left behind in leaf slot k when the clock moved on to c.
  ghost predicate Stale(p: Place, next: int, c: nat, k: nat) {
    p == Slot(0, k) && next < c
  }

  // Waits in a wheel at or above i, or in the overflow list (i at most n), to be moved down at time c.
  ghost predicate Due(p: Place, next: int, c: nat, s: nat, n: nat, i: nat)
    requires s >= 1
  {
    match p
    case Slot(m, k) => 1 <= m && i <= m < n && c % Pow(s, m) == 0 && next / Pow(s, m) == c / Pow(s, m) &&
      k == c / Pow(s, m) % s
    case Overflow => i <= n && c % Pow(s, n) == 0 && next / Pow(s, n) == c / Pow(s, n)
    case Loose => false
  }

  // The 32-bit cut changes nothing that matters: no wheel sees a far deadline as a near one.
  ghost predicate CutHarmless(next: int, c: nat, s: nat, n: nat)
    requires s >= 1
  {
    forall m :: 0 <= m < n ==> !Wraps(next, c, s, m)
  }

  ghost predicate Wraps(next: int, c: nat, s: nat, m: nat)
    requires s >= 1
  {
    var d := next / Pow(s, m) - c / Pow(s, m);
    d >= WORD && d % WORD < s
  }

  lemma PowStep(s: nat, i: nat)
    requires s >= 1
    ensures Pow(s, i + 1) == Pow(s, i) * s && Pow(s, i) >= 1
  {
    assert Pow(s, i + 1) == s * Pow(s, i);
  }

  // Quotients by successive powers.
  lemma DivPowStep(a: int, s: nat, i: nat)
    requires s >= 1
    ensures a / Pow(s, i + 1) == a / Pow(s, i) / s
    ensures a % Pow(s, i + 1) == 0 <==> a % Pow(s, i) == 0 && a / Pow(s, i) % s == 0
  {
    PowStep(s, i);
    DivDiv(a, Pow(s, i), s);
    ModProduct(a, Pow(s, i), s);
  }

  // A strictly larger quotient means a strictly larger number.
  lemma QuotientLess(a: int, b: int, d: int)
    requires d > 0 && a / d < b / d
    ensures a < b
  {
    if b <= a { DivMono(b, a, d); }
  }

  lemma ClockQuotient(clocks: seq<int>, c: nat, s: nat, i: nat)
    requires s >= 1 && Synced(clocks, c, s, i)
    ensures clocks[i] / Pow(s, i) == c / Pow(s, i) && clocks[i] <= c
  {
    DivBounds(c, Pow(s, i));
    QuotientIs(clocks[i], Pow(s, i), c / Pow(s, i), 0);
  }

  // Rejection by wheel i puts the deadline beyond the current step of wheel i + 1.
  lemma RejectedMeansBeyond(next: int, c: nat, s: nat, i: nat)
    requires s >= 1 && next / Pow(s, i) - c / Pow(s, i) >= s
    ensures next / Pow(s, i + 1) > c / Pow(s, i + 1)
  {
    var p := Pow(s, i);
    DivPowStep(next, s, i);
    DivPowStep(c, s, i);
    assert c / p + 1 * s == c / p + s;
    DivAddMultiple(c / p, 1, s);
    DivMono(c / p + s, next / p, s);
  }

  lemma SmallOffset(d: int)
    requires 0 <= d < WORD
    ensures d % WORD == d
  {
  }

  // The slot arithmetic of an accepted deadline, free of the 32-bit cut.
  lemma SlotOf(next: int, c: nat, s: nat, clocks: seq<int>, i: nat)
    requires 1 <= s < WORD && Synced(clocks, c, s, i) && next > c
    requires 0 <= next / Pow(s, i) - c / Pow(s, i) < s
    ensures Offset(next, clocks[i], Pow(s, i)) == next / Pow(s, i) - c / Pow(s, i)
    ensures SlotIndex(next, clocks[i], Pow(s, i), s) == next / Pow(s, i) % s
  {
    ClockQuotient(clocks, c, s, i);
    SmallOffset(next / Pow(s, i) - c / Pow(s, i));
  }

  // Unless it wraps, the cut offset accepts and rejects as the true distance does.
  lemma OffsetDecides(next: int, c: nat, s: nat, clocks: seq<int>, i: nat)
    requires 1 <= s < WORD && Synced(clocks, c, s, i) && next > c && !Wraps(next, c, s, i)
    ensures next / Pow(s, i) >= c / Pow(s, i)
    ensures Offset(next, clocks[i], Pow(s, i)) < s <==> next / Pow(s, i) - c / Pow(s, i) < s
  {
    ClockQuotient(clocks, c, s, i);
    DivMono(c, next, Pow(s, i));
    var d := next / Pow(s, i) - c / Pow(s, i);
    if d < WORD { SmallOffset(d); }
  }

  lemma AcceptedGood(next: int, c: nat, s: nat, clocks: seq<int>, i: nat)
    requires 1 <= s < WORD && Synced(clocks, c, s, i) && next > c && !Wraps(next, c, s, i)
    requires i > 0 ==> next / Pow(s, i) > c / Pow(s, i)
    requires Offset(next, clocks[i], Pow(s, i)) < s
    ensures Good(FileFrom(next, clocks, s, i), next, c, s, |clocks|)
  {
    OffsetDecides(next, c, s, clocks, i);
    SlotOf(next, c, s, clocks, i);
    if i == 0 {
      assert Pow(s, 0) == 1;
      assert next / 1 == next && c / 1 == c;
    }
  }

  // A deadline already reached goes to the leaf slot of the present.
  lemma PastGood(next: int, c: nat, s: nat, clocks: seq<int>)
    requires 1 <= s < WORD && Synced(clocks, c, s, 0) && next <= c
    ensures FileFrom(next, clocks, s, 0) == Slot(0, c % s)
  {
    assert Pow(s, 0) == 1;
    assert clocks[0] == c;
  }

  // Filing from wheel i, when the wheels below i have rejected the deadline. Wheels from j on may
  // not have been turned yet; the deadline must then belong below wheel j - 1.
  lemma {:induction false} FiledGood(next: int, c: nat, s: nat, clocks: seq<int>, i: nat, j: nat)
    requires 1 <= s < WORD && i <= j && 1 <= j && SyncedBelow(clocks, c, s, j)
    requires CutHarmless(next, c, s, |clocks|)
    requires j < |clocks| ==> next / Pow(s, j - 1) <= c / Pow(s, j - 1)
    requires i > 0 ==> next > c && next / Pow(s, i) > c / Pow(s, i)
    ensures Good(FileFrom(next, clocks, s, i), next, c, s, |clocks|)
    ensures j < |clocks| ==> FileFrom(next, clocks, s, i).Slot? && FileFrom(next, clocks, s, i).wheel < j
    decreases |clocks| - i
  {
    if i == |clocks| {
    } else if i == j {
      DivPowStep(next, s, j - 1);
      DivPowStep(c, s, j - 1);
      DivMono(next / Pow(s, j - 1), c / Pow(s, j - 1), s);
      assert false;
    } else {
      assert Synced(clocks, c, s, i);
      if next <= c {
        PastGood(next, c, s, clocks);
      } else {
        assert !Wraps(next, c, s, i);
        if Offset(next, clocks[i], Pow(s, i)) < s {
          AcceptedGood(next, c, s, clocks, i);
        } else {
          OffsetDecides(next, c, s, clocks, i);
          RejectedMeansBeyond(next, c, s, i);
          FiledGood(next, c, s, clocks, i + 1, j);
        }
      }
    }
  }

  // Some wheel that sees the deadline wrapped takes it, or an earlier one does: never a good place.
  lemma {:induction false} WrappedIsBad(next: int, c: nat, s: nat, clocks: seq<int>, i: nat, m: nat)
    requires 1 <= s < WORD && i <= m < |clocks| && SyncedBelow(clocks, c, s, |clocks|)
    requires Wraps(next, c, s, m) && next > c
    ensures !Good(FileFrom(next, clocks, s, i), next, c, s, |clocks|)
    decreases m - i
  {
    hide Good;
    assert Synced(clocks, c, s, i);
    ClockQuotient(clocks, c, s, i);
    WiderStepsShrink(next, c, s, i, m);
    if Offset(next, clocks[i], Pow(s, i)) < s {
      FarIsBad(next, c, s, i, SlotIndex(next, clocks[i], Pow(s, i), s), |clocks|);
    } else {
      assert i != m;
      WrappedIsBad(next, c, s, clocks, i + 1, m);
    }
  }

  lemma FarIsBad(next: int, c: nat, s: nat, i: nat, k: nat, n: nat)
    requires 1 <= s < WORD && next > c && next / Pow(s, i) - c / Pow(s, i) >= WORD
    ensures !Good(Slot(i, k), next, c, s, n)
  {
    if i == 0 { assert Pow(s, 0) == 1; }
  }

  // The distance in steps of a wheel above is no more than that of a wheel below.
  lemma {:induction false} WiderStepsShrink(next: int, c: nat, s: nat, i: nat, m: nat)
    requires s >= 1 && i <= m && next > c
    ensures next / Pow(s, m) - c / Pow(s, m) <= next / Pow(s, i) - c / Pow(s, i)
    decreases m - i
  {
    if i < m {
      WiderStepsShrink(next, c, s, i + 1, m);
      DivPowStep(next, s, i);
      DivPowStep(c, s, i);
      var a, b := next / Pow(s, i), c / Pow(s, i);
      DivMono(c, next, Pow(s, i));
      QuotientGap(a, b, s);
    }
  }

  lemma QuotientGap(a: int, b: int, s: nat)
    requires s >= 1 && a >= b
    ensures a / s - b / s <= a - b
  {
    DivAddMultiple(b, a - b, s);
    DivMonoMul(1, s, a - b + 1);
    Distribute(a - b, 0, s);
    assert (a - b) * s >= a - b by {
      if a > b { DivMonoMul(1, s, a - b); assert (a - b) * s == s * (a - b); }
    }
    DivMono(a, b + (a - b) * s, s);
  }

  // TimerWheel::add_timer files a deadline where it belongs exactly when the 32-bit cut is harmless.
  lemma FiledGoodIff(next: int, c: nat, s: nat, clocks: seq<int>)
    requires 1 <= s < WORD && |clocks| >= 1 && SyncedBelow(clocks, c, s, |clocks|)
    ensures Good(FileFrom(next, clocks, s, 0), next, c, s, |clocks|) <==> CutHarmless(next, c, s, |clocks|)
  {
    if CutHarmless(next, c, s, |clocks|) {
      FiledGood(next, c, s, clocks, 0, |clocks|);
    } else {
      var m :| 0 <= m < |clocks| && Wraps(next, c, s, m);
      if next <= c {
        DivMono(next, c, Pow(s, m));
        assert false;
      }
      WrappedIsBad(next, c, s, clocks, 0, m);
    }
  }

  // That the cut does a deadline no harm whenever it is filed between two times.
  ghost predicate HarmlessUntil(next: int, start: int, until: int, s: nat, n: nat)
    requires s >= 1
  {
    forall c: nat :: start <= c <= until ==> CutHarmless(next, c, s, n)
  }

  lemma NearUntil(next: int, start: int, until: int, s: nat, n: nat)
    requires s >= 1 && next - start < WORD
    ensures HarmlessUntil(next, start, until, s, n)
  {
    forall c: nat | start <= c <= until ensures CutHarmless(next, c, s, n) { NearIsHarmless(next, c, s, n); }
  }

  // A condition a caller can check: a deadline less than 2^32 ticks ahead is never cut.
  lemma NearIsHarmless(next: int, c: nat, s: nat, n: nat)
    requires s >= 1 && next - c < WORD
    ensures CutHarmless(next, c, s, n)
  {
    forall m | 0 <= m < n ensures !Wraps(next, c, s, m) {
      if next > c {
        WiderStepsShrink(next, c, s, 0, m);
        assert Pow(s, 0) == 1;
      } else {
        DivMono(next, c, Pow(s, m));
      }
    }
  }

  // One tick: everything in a good place stays good, or is due to move, or is the slot to fire.
  lemma Tick(p: Place, next: int, c: nat, s: nat, n: nat)
    requires s >= 1 && n >= 1 && Good(p, next, c, s, n)
    ensures Good(p, next, c + 1, s, n) || Stale(p, next, c + 1, c % s) || Due(p, next, c + 1, s, n, 1)
  {
    match p
    case Slot(i, k) =>
      if i > 0 { DivSucc(c, Pow(s, i)); }
    case Overflow => DivSucc(c, Pow(s, n));
  }

  // In the step that wheel m has just reached, nothing but due timers waits.
  lemma CurrentStepNotGood(next: int, c: nat, s: nat, n: nat, m: nat)
    requires s >= 1 && 1 <= m
    ensures !Good(Slot(m, c / Pow(s, m) % s), next, c, s, n)
  {
    if Good(Slot(m, c / Pow(s, m) % s), next, c, s, n) {
      ModApart(c / Pow(s, m), next / Pow(s, m), s);
    }
  }

  // A clock that is no multiple of a wheel's step is no multiple of a wider one.
  lemma {:induction false} NotMultipleAbove(c: nat, s: nat, i: nat, m: nat)
    requires s >= 1 && i <= m && c % Pow(s, i) != 0
    ensures c % Pow(s, m) != 0
    decreases m
  {
    if i < m {
      NotMultipleAbove(c, s, i, m - 1);
      DivPowStep(c, s, m - 1);
    }
  }

  // When the clock is not on wheel i's step nothing waits in wheel i or above.
  lemma NoneDue(p: Place, next: int, c: nat, s: nat, n: nat, i: nat)
    requires s >= 1 && 1 <= i <= n && c % Pow(s, i) != 0
    ensures !Due(p, next, c, s, n, i)
  {
    if p.Slot? && i <= p.wheel { NotMultipleAbove(c, s, i, p.wheel); }
    NotMultipleAbove(c, s, i, n);
  }

  // In every place but the current leaf slot a well-placed deadline is still ahead.
  lemma GoodElsewhereIsAhead(p: Place, next: int, c: nat, s: nat, n: nat)
    requires s >= 1 && Good(p, next, c, s, n) && p != Slot(0, c % s)
    ensures next > c
  {
    match p
    case Slot(i, k) =>
      if i > 0 { QuotientLess(c, next, Pow(s, i)); }
    case Overflow => QuotientLess(c, next, Pow(s, n));
  }

  // A well-placed timer in the leaf slot of the present has reached its deadline.
  lemma GoodInCurrentSlotIsDue(next: int, c: nat, s: nat, n: nat)
    requires s >= 1 && Good(Slot(0, c % s), next, c, s, n)
    ensures next <= c
  {
    if next > c { ModApart(c, next, s); }
  }

  // A concrete far deadline: 2^32 ticks ahead is filed as if it were due now.
  lemma FarDeadlineMisfiled()
    ensures FileFrom(WORD, [0, 0, 0, 0], 256, 0) == Slot(0, 0)
    ensures !Good(Slot(0, 0), WORD, 0, 256, 4)
  {
    assert Pow(256, 0) == 1;
  }
}
