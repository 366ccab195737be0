// The sorted timer container: a multimap from deadline to timer beside a map from id to timer.
module SortedIndex {
  import opened TimerNodes

  datatype Entry = Entry(key: int, id: int)

  ghost predicate Ordered(s: seq<Entry>) {
    forall i, j :: 0 <= i < j < |s| ==> s[i].key <= s[j].key && s[i].id != s[j].id
  }

  // Every entry names a live timer outside out by its deadline.
  ghost predicate Names(s: seq<Entry>, live: map<int, Timer>, out: set<int>) {
    forall e :: e in s ==> e.id in live && e.id !in out && e.key == live[e.id].next
  }

  // The index lists every live timer but those in out, once, under its deadline.
  ghost predicate Indexes(s: seq<Entry>, live: map<int, Timer>, out: set<int>) {
    && Ordered(s)
    && Names(s, live, out)
    && (forall id :: id in live && id !in out ==> Entry(live[id].next, id) in s)
  }

  // Where a multimap puts a new entry: behind every entry with the same key.
  function UpperBound(s: seq<Entry>, key: int, k: nat := 0): (r: nat)
    requires k <= |s|
    ensures k <= r <= |s|
    ensures r < |s| ==> key < s[r].key
    ensures forall i :: k <= i < r ==> s[i].key <= key
    decreases |s| - k
  {
    if k == |s| || key < s[k].key then k else UpperBound(s, key, k + 1)
  }

  function Insert(s: seq<Entry>, e: Entry): seq<Entry> {
    var k := UpperBound(s, e.key);
    s[..k] + [e] + s[k..]
  }

  lemma InsertOrdered(s: seq<Entry>, e: Entry)
    requires Ordered(s) && forall i :: 0 <= i < |s| ==> s[i].id != e.id
    ensures Ordered(Insert(s, e))
  {
    var k := UpperBound(s, e.key);
    var r := Insert(s, e);
    forall i, j | 0 <= i < j < |r| ensures r[i].key <= r[j].key && r[i].id != r[j].id {
      var i' := if i < k then i else i - 1;
      var j' := if j < k then j else j - 1;
      if i != k { assert r[i] == s[i']; }
      if j != k { assert r[j] == s[j']; }
    }
  }

  lemma InsertMembers(s: seq<Entry>, e: Entry)
    ensures forall x :: x in Insert(s, e) <==> x in s || x == e
  {
    var k := UpperBound(s, e.key);
    assert s == s[..k] + s[k..];
  }

  lemma InsertIndexes(s: seq<Entry>, live: map<int, Timer>, id: int)
    requires id in live && Indexes(s, live, {id})
    ensures Indexes(Insert(s, Entry(live[id].next, id)), live, {})
  {
    var e := Entry(live[id].next, id);
    forall i | 0 <= i < |s| ensures s[i].id != id { assert s[i] in s; }
    InsertOrdered(s, e);
    InsertMembers(s, e);
  }

  lemma EraseMembers(s: seq<Entry>, k: nat)
    requires k < |s| && Ordered(s)
    ensures Ordered(s[..k] + s[k + 1..])
    ensures forall e :: e in s <==> e in s[..k] + s[k + 1..] || e == s[k]
    ensures forall e :: e in s[..k] + s[k + 1..] ==> e.id != s[k].id
  {
    var r := s[..k] + s[k + 1..];
    assert s == s[..k] + [s[k]] + s[k + 1..];
    assert forall i :: 0 <= i < |r| ==> r[i] == s[if i < k then i else i + 1];
  }

  lemma EraseIndexes(s: seq<Entry>, live: map<int, Timer>, k: nat)
    requires k < |s| && Indexes(s, live, {})
    ensures Indexes(s[..k] + s[k + 1..], live, {s[k].id})
  {
    EraseMembers(s, k);
    assert s[k] in s;
  }

  // A scan that passed every entry up to the timer's deadline shows the timer was already out.
  lemma NotListed(s: seq<Entry>, live: map<int, Timer>, out: set<int>, id: int, j: nat)
    requires Indexes(s, live, out) && id in live && j <= |s|
    requires forall i :: 0 <= i < j ==> s[i].id != id
    requires j < |s| ==> s[j].key > live[id].next
    ensures id in out
  {
    assert forall i :: 0 <= i < |s| ==> s[i] != Entry(live[id].next, id);
  }

  lemma EraseFirst(s: seq<Entry>, live: map<int, Timer>)
    requires s != [] && Indexes(s, live, {})
    ensures Indexes(s[1..], live, {s[0].id})
  {
    EraseIndexes(s, live, 0);
    assert s[..0] + s[1..] == s[1..];
  }

  // A timer that is not there is outside the index as much as inside.
  lemma AbsentIndexes(s: seq<Entry>, live: map<int, Timer>, out: set<int>, id: int)
    requires Indexes(s, live, out) && out <= {id} && id !in live
    ensures Indexes(s, live, {}) && Indexes(s, live, {id})
  {
  }

  // A timer outside the index may change or vanish without the index noticing.
  lemma OutsideIsFree(s: seq<Entry>, live: map<int, Timer>, live': map<int, Timer>, id: int)
    requires Indexes(s, live, {id})
    requires forall x :: x != id ==> (x in live <==> x in live') && (x in live ==> live[x] == live'[x])
    ensures Indexes(s, live', {id})
    ensures id !in live' ==> Indexes(s, live', {})
  {
  }

  lemma ChangeIsFree(s: seq<Entry>, live: map<int, Timer>, id: int, t: Timer)
    requires Indexes(s, live, {id})
    ensures Indexes(s, live[id := t], {id})
  {
    OutsideIsFree(s, live, live[id := t], id);
  }
}

module RBTimers {
  import opened TimerNodes
  import opened TimerSpec
  import opened SortedIndex

  class RBTimer {
    const callback: Callback
    var now: int
    var sorted: seq<Entry>
    var nodes: map<int, TimerNode>
    var lastId: int
    ghost var view: Timers
    ghost var repr: set<TimerNode>

    // The ghost view is the real state. The timers in out are being fired.
    ghost predicate Sound(out: set<int>)
      reads this`now, this`nodes, this`lastId, this`view, this`repr, repr
    {
      && view.now == now && view.lastId == lastId && 0 <= lastId <= MAX_ID
      && view.live.Keys == nodes.Keys && view.live.Keys <= view.calls.Keys
      && LiveOkBut(view.live, out)
      && (forall id :: id in nodes ==> nodes[id] in repr && nodes[id].Rec() == view.live[id] && !nodes[id].calling)
    }

    ghost predicate Valid()
      reads this, repr
    {
      Sound({}) && Indexes(sorted, view.live, {})
    }

    constructor (callback: Callback)
      ensures Valid() && repr == {}
      ensures this.callback == callback && view == Timers(0, map[], 0, map[])
    {
      this.callback := callback;
      now, sorted, nodes, lastId := 0, [], map[], 0;
      view, repr := Timers(0, map[], 0, map[]), {};
    }

    method AddTimer(callable: bool, kind: int, start: int, interval: int, times: int, fromNow: bool) returns (r: int)
      requires Valid()
      modifies this
      ensures Valid() && repr >= old(repr) && fresh(repr - old(repr))
      ensures (view, r) == Added(old(view), callable, kind, start, interval, times, fromNow)
    {
      if !callable || times == 0 || start + interval <= 0 { return 0; }
      lastId := FreshId(lastId);
      view := view.(lastId := lastId);
      var timer := new TimerNode();
      var ok := timer.Init(lastId, kind, now + start, interval, times, fromNow);
      if !ok || lastId in nodes { return 0; }
      Enlist(timer);
      return lastId;
    }

    method Enlist(timer: TimerNode)
      requires Valid() && timer !in repr && !timer.calling && timer.id !in nodes
      requires 1 <= timer.id <= MAX_ID && timer.interval > 0 && timer.left != 0
      modifies this
      ensures Valid() && repr == old(repr) + {timer} && lastId == old(lastId)
      ensures view == WithTimer(old(view), timer.Rec())
    {
      hide Indexes;
      ghost var live := view.live;
      AbsentIndexes(sorted, live, {}, timer.id);
      ChangeIsFree(sorted, live, timer.id, timer.Rec());
      Register(timer);
      AddTimerNode(timer);
    }

    method Register(timer: TimerNode)
      requires Sound({}) && timer !in repr && !timer.calling && timer.id !in nodes
      requires 1 <= timer.id <= MAX_ID && timer.interval > 0 && timer.left != 0
      modifies this`nodes, this`repr, this`view
      ensures Sound({}) && repr == old(repr) + {timer} && view == WithTimer(old(view), timer.Rec())
    {
      nodes, repr := nodes[timer.id := timer], repr + {timer};
      view := WithTimer(view, timer.Rec());
    }

    method AddTimerNode(timer: TimerNode)
      requires timer.id in view.live && view.live[timer.id].next == timer.next
      requires Indexes(sorted, view.live, {timer.id})
      modifies this`sorted
      ensures Indexes(sorted, view.live, {})
    {
      InsertIndexes(sorted, view.live, timer.id);
      sorted := Insert(sorted, Entry(timer.next, timer.id));
    }

    // During an update the timer has already left the index (out), and the scan finds nothing.
    method RemoveTimer(id: int, ghost out: set<int>) returns (found: bool)
      requires Sound(out) && Indexes(sorted, view.live, out) && out <= {id}
      modifies this, repr
      ensures Valid() && repr == old(repr)
      ensures (view, found) == Removed(old(view), id)
    {
      hide Indexes;
      if id !in nodes {
        AbsentIndexes(sorted, view.live, out, id);
        assert view.live - {id} == view.live;
        assert nodes - {id} == nodes;
        return false;
      }
      var all, timer := nodes, nodes[id];
      var deferred := timer.RemoveIfCalling();
      if deferred { return true; }
      Unindex(timer, all, out);
      Forget(id, out);
      return true;
    }

    method Forget(id: int, ghost out: set<int>)
      requires Sound(out) && out <= {id} && id in nodes && Indexes(sorted, view.live, {id})
      modifies this`nodes, this`view
      ensures Valid() && view == old(view).(live := old(view).live - {id})
    {
      hide Indexes;
      ghost var live := view.live;
      nodes := nodes - {id};
      view := view.(live := live - {id});
      OutsideIsFree(sorted, live, view.live, id);
    }

    // The scan starts at the first entry with the timer's deadline.
    method Unindex(timer: TimerNode, all: map<int, TimerNode>, ghost out: set<int>)
      requires forall x :: x in view.live ==> x in all && all[x].next == view.live[x].next
      requires timer.id in view.live && timer.id in all && all[timer.id] == timer
      requires Indexes(sorted, view.live, out) && out <= {timer.id}
      modifies this`sorted
      ensures Indexes(sorted, view.live, {timer.id})
    {
      var id := timer.id;
      var j := 0;
      while j < |sorted| && sorted[j].key < timer.next
        invariant 0 <= j <= |sorted|
        invariant forall i :: 0 <= i < j ==> sorted[i].id != id
      {
        assert sorted[j] in sorted;
        j := j + 1;
      }
      if j < |sorted| && sorted[j].key == timer.next {
        while j < |sorted| && all[sorted[j].id].next <= timer.next
          invariant 0 <= j <= |sorted| && sorted == old(sorted)
          invariant forall i :: 0 <= i < j ==> sorted[i].id != id
        {
          if sorted[j].id == id {
            assert sorted[j] in sorted;
            assert out == {};
            EraseIndexes(sorted, view.live, j);
            sorted := sorted[..j] + sorted[j + 1..];
            return;
          }
          j := j + 1;
        }
      }
      NotListed(sorted, view.live, out, id, j);
      assert out == {id};
    }

    // One round of the update loop: take the earliest timer out of the index, call it, and either
    // drop it or file it again under its next deadline.
    method FireFront()
      requires Valid() && |sorted| > 0 && sorted[0].id in view.live && view.live[sorted[0].id].next <= now
      modifies this, repr
      ensures Valid() && repr == old(repr)
      ensures view == Fired(old(view), old(sorted[0].id), callback)
    {
      hide Indexes, Sound;
      ghost var before := view;
      var node := CallFront();
      if node.left == 0 {
        var id := node.id;
        ghost var live := view.live;
        var _ := RemoveTimer(id, {id});
        assert live - {id} == before.live - {id};
      } else {
        ghost var id, f := node.id, node.Rec();
        FileAgain(id, node);
        assert before.live[id := f][id := Advanced(f, now)] == before.live[id := Advanced(f, now)];
      }
    }

    method FileAgain(ghost id: int, node: TimerNode)
      requires Sound({id}) && Indexes(sorted, view.live, {id})
      requires node in repr && id in nodes && nodes[id] == node && node.left != 0 && id in view.live
      modifies this`sorted, this`view, node
      ensures Valid()
      ensures view == old(view).(live := old(view).live[id := Advanced(old(view).live[id], now)])
    {
      hide Indexes;
      ghost var live := view.live;
      node.NextTime(now);
      view := view.(live := live[id := node.Rec()]);
      ChangeIsFree(sorted, live, id, node.Rec());
      AddTimerNode(node);
    }

    lemma FrontShown()
      requires Valid() && |sorted| > 0 && sorted[0].id in view.live
      ensures var id := sorted[0].id; id in nodes && nodes[id] in repr && view.live[id].id == id && view.now == now
      ensures Indexes(sorted, view.live, {})
    {
    }

    method CallFront() returns (node: TimerNode)
      requires Valid() && |sorted| > 0 && sorted[0].id in view.live
      modifies this, repr
      ensures node.id == old(sorted[0].id) && node in repr && node.id in nodes && nodes[node.id] == node
      ensures node.id in view.live && node.Rec() == view.live[node.id] && view.now == now == old(now)
      ensures Sound({node.id}) && Indexes(sorted, view.live, {node.id}) && repr == old(repr)
      ensures var t := old(view).live[node.id];
              view == old(view).(live := old(view).live[node.id := TimedOut(t, callback)],
                                 calls := old(view).calls[node.id := old(view).calls[node.id] + [Told(t)]])
    {
      hide Indexes, Sound;
      FrontShown();
      var id := sorted[0].id;
      node := nodes[id];
      ghost var live := view.live;
      EraseFirst(sorted, live);
      sorted := sorted[1..];
      ChangeIsFree(sorted, live, id, TimedOut(live[id], callback));
      Call(id);
    }

    // Calls the timer's callback.
    method Call(id: int)
      requires Sound({}) && id in nodes
      modifies this`view, nodes[id]
      ensures Sound({id}) && nodes[id].Rec() == view.live[id]
      ensures view == old(view).(live := old(view).live[id := TimedOut(old(view).live[id], callback)],
                                 calls := old(view).calls[id := old(view).calls[id] + [Told(old(view).live[id])]])
    {
      ghost var t := view.live[id];
      var _ := nodes[id].TimeOut(callback);
      view := view.(live := view.live[id := TimedOut(t, callback)],
        calls := view.calls[id := view.calls[id] + [Told(t)]]);
    }

    method Update(delta: int)
      requires Valid()
      modifies this, repr
      ensures Valid() && repr == old(repr)
      ensures view == Updated(old(view), delta, callback)
    {
      if delta <= 0 { return; }
      now := now + delta;
      ghost var before := view;
      view := view.(now := now);
      ghost var n := RunningStart(before, delta, callback);
      while |sorted| > 0 && nodes[sorted[0].id].next <= now && nodes[sorted[0].id].left != 0
        invariant Valid() && Running(before, view, delta, n, callback)
        invariant repr == old(repr)
        decreases Debt(view.live, now, n)
      {
        ghost var v, id := view, sorted[0].id;
        HeadIsLive();
        FireFront();
        RunningFire(before, v, delta, n, callback, id);
      }
      NothingDue();
      RunningEnd(before, view, delta, n, callback);
    }

    lemma HeadIsLive()
      requires Valid() && |sorted| > 0
      ensures sorted[0].id in view.live && sorted[0].key == view.live[sorted[0].id].next
      ensures nodes[sorted[0].id].left != 0
    {
      assert sorted[0] in sorted;
    }

    // The earliest deadline decides for all.
    lemma NothingDue()
      requires Valid() && (|sorted| > 0 ==> nodes[sorted[0].id].next > now)
      ensures forall id :: id in view.live ==> view.live[id].next > now
    {
      if |sorted| > 0 { HeadIsLive(); }
      forall id | id in view.live ensures view.live[id].next > now {
        var k :| 0 <= k < |sorted| && sorted[k] == Entry(view.live[id].next, id);
      }
    }
  }
}
