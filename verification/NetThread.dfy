// Handing requests and responses over between the logic thread and the network thread. What one thread
// does between two uses of a shared queue is one step; the steps of the two threads interleave freely.
module NetThread {
  import opened Sequences

  const INT64_MAX: int := 0x7FFF_FFFF_FFFF_FFFF

  datatype Msg = NoMsg | Msg(data: int)

  // A request or a response on its way. Those that belong to a request carry its id, others zero.
  datatype Item = Item(reqId: int, kind: int, msg: Msg)

  // A request whose response is waited for, and the time it was made.
  datatype ReqItem = ReqItem(id: int, time: int)

  datatype Code = Success | ErrorMemoryNotEnough

  function Ids(ws: seq<ReqItem>): set<int> {
    set w | w in ws :: w.id
  }

  // In the order of ids and of times.
  ghost predicate Ordered(ws: seq<ReqItem>) {
    && (forall i, j :: 0 <= i < j < |ws| ==> ws[i].id < ws[j].id)
    && (forall i, j :: 0 <= i < j < |ws| ==> ws[i].time <= ws[j].time)
  }

  // The requests that are not too old.
  function Fresh(ws: seq<ReqItem>, since: int): (r: seq<ReqItem>)
    ensures forall w :: w in r <==> w in ws && w.time >= since
  {
    if ws == [] then [] else if ws[0].time >= since then [ws[0]] + Fresh(ws[1..], since) else Fresh(ws[1..], since)
  }

  // Because times go up with ids, the fresh requests are those from the first fresh one on.
  lemma {:induction false} FreshFromFirst(ws: seq<ReqItem>, since: int)
    requires Ordered(ws) && (ws == [] || ws[0].time >= since)
    ensures Fresh(ws, since) == ws
  {
    if |ws| > 1 { FreshFromFirst(ws[1..], since); }
  }

  // Without the order the scan may stop too early.
  lemma ScanStopsEarly()
    ensures var ws := [ReqItem(1, 7), ReqItem(2, 3)]; ws[0].time >= 5 && Fresh(ws, 5) != ws
  {
    assert ReqItem(2, 3) in [ReqItem(1, 7), ReqItem(2, 3)];
  }

  // The requests with ids up to the last are divided among those waiting, those answered and those expired.
  ghost predicate Accounted(lastId: int, lastTime: int, waiting: seq<ReqItem>, called: seq<int>, expired: set<int>) {
    && 0 <= lastId <= INT64_MAX && NoDup(called)
    && InTime(waiting, lastId, lastTime) && Divided(lastId, Ids(waiting), called, expired)
  }

  ghost predicate InTime(ws: seq<ReqItem>, lastId: int, lastTime: int) {
    Ordered(ws) && forall w :: w in ws ==> 0 < w.id <= lastId && w.time <= lastTime
  }

  ghost predicate Divided(lastId: int, waiting: set<int>, called: seq<int>, expired: set<int>) {
    && (forall id :: 0 < id <= lastId ==> id in waiting || id in called || id in expired)
    && (forall id :: id in waiting ==> 0 < id <= lastId)
    && (forall id :: id in called ==> 0 < id <= lastId && id !in waiting && id !in expired)
    && (forall id :: id in expired ==> 0 < id <= lastId && id !in waiting)
  }

  lemma OneMore(lastId: int, lastTime: int, waiting: seq<ReqItem>, called: seq<int>, expired: set<int>, now: int)
    requires Accounted(lastId, lastTime, waiting, called, expired) && lastId < INT64_MAX && now >= lastTime
    ensures Accounted(lastId + 1, now, waiting + [ReqItem(lastId + 1, now)], called, expired)
  {
    var w := ReqItem(lastId + 1, now);
    OrderedMore(waiting, w, lastId, lastTime);
    IdsOfMore(waiting, w);
    DividedMore(lastId, Ids(waiting), called, expired);
  }

  lemma DividedMore(lastId: int, waiting: set<int>, called: seq<int>, expired: set<int>)
    requires Divided(lastId, waiting, called, expired) && lastId >= 0
    ensures Divided(lastId + 1, waiting + {lastId + 1}, called, expired)
  {
  }

  lemma OrderedMore(ws: seq<ReqItem>, w: ReqItem, lastId: int, lastTime: int)
    requires InTime(ws, lastId, lastTime) && 0 <= lastId < w.id && lastTime <= w.time
    ensures InTime(ws + [w], w.id, w.time)
  {
    assert forall i :: 0 <= i < |ws| ==> ws[i] in ws;
  }

  lemma IdsOfMore(ws: seq<ReqItem>, w: ReqItem)
    ensures Ids(ws + [w]) == Ids(ws) + {w.id} && forall x :: x in ws + [w] <==> x in ws || x == w
  {
    assert (ws + [w])[|ws|] == w;
    assert forall x :: x in ws + [w] <==> x in ws || x == w;
  }

  lemma OneCalled(lastId: int, lastTime: int, waiting: seq<ReqItem>, called: seq<int>, expired: set<int>, k: nat)
    requires Accounted(lastId, lastTime, waiting, called, expired) && k < |waiting|
    ensures Accounted(lastId, lastTime, waiting[..k] + waiting[k + 1..], called + [waiting[k].id], expired)
  {
    EraseKeeps(waiting, k);
    assert waiting[k] in waiting && waiting[k].id in Ids(waiting);
    assert forall id :: id in called + [waiting[k].id] <==> id in called || id == waiting[k].id;
  }

  lemma FirstExpired(lastId: int, lastTime: int, waiting: seq<ReqItem>, called: seq<int>, expired: set<int>)
    requires Accounted(lastId, lastTime, waiting, called, expired) && waiting != []
    ensures Accounted(lastId, lastTime, waiting[1..], called, expired + {waiting[0].id})
  {
    FirstGoes(waiting);
    assert waiting[0] in waiting && waiting[0].id in Ids(waiting);
  }

  lemma OnTop(ahead: seq<Item>, queue: seq<Item>, item: Item)
    ensures ahead + (queue + [item]) == ahead + queue + [item]
  {
  }

  class PureNetThread {
    // Of the logic thread.
    var reqQueue: seq<Item>
    var respTaken: seq<Item>
    var waiting: seq<ReqItem>
    var lastId: int
    var reqTimeout: int
    // Of the network thread.
    var respQueue: seq<Item>
    var reqTaken: seq<Item>
    // Shared, each under its mutex.
    var swapReq: seq<Item>
    var swapResp: seq<Item>
    // What has happened.
    ghost var asked: seq<Item>
    ghost var worked: seq<Item>
    ghost var told: seq<Item>
    ghost var heard: seq<Item>
    ghost var called: seq<int>
    ghost var expired: set<int>
    ghost var lastTime: int

    // Requests and responses arrive in the order they were made, none lost and none twice.
    ghost predicate Flowing()
      reads this
    {
      && asked == worked + reqTaken + swapReq + reqQueue
      && told == heard + respTaken + swapResp + respQueue
    }

    // Every request is waiting, or was answered, or has expired.
    ghost predicate Valid()
      reads this
    {
      Flowing() && reqTimeout > 0 && Accounted(lastId, lastTime, waiting, called, expired)
    }

    constructor (reqTimeout: int)
      requires reqTimeout > 0
      ensures Valid() && asked == told == [] && called == [] && expired == {} && waiting == [] && lastId == 0 &&
              lastTime == 0
      ensures this.reqTimeout == reqTimeout
    {
      this.reqTimeout := reqTimeout;
      reqQueue, respTaken, waiting, respQueue, reqTaken, swapReq, swapResp := [], [], [], [], [], [], [];
      lastId := 0;
      asked, worked, told, heard, called, expired, lastTime := [], [], [], [], [], {}, 0;
    }

    // A request that waits for its response.
    method Ask(kind: int, data: int, now: int)
      requires Valid() && now >= lastTime && lastId < INT64_MAX
      modifies this
      ensures Valid() && lastId == old(lastId) + 1 && waiting == old(waiting) + [ReqItem(lastId, now)]
      ensures asked == old(asked) + [Item(lastId, kind, Msg(data))] && told == old(told) && called == old(called) &&
              expired == old(expired)
      ensures worked == old(worked) && heard == old(heard) && reqTimeout == old(reqTimeout) && lastTime == now
    {
      OneMore(lastId, lastTime, waiting, called, expired, now);
      lastId := lastId + 1;
      var req := Item(lastId, kind, Msg(data));
      OnTop(worked + reqTaken + swapReq, reqQueue, req);
      waiting := waiting + [ReqItem(lastId, now)];
      reqQueue := reqQueue + [req];
      asked := asked + [req];
      lastTime := now;
    }

    // A request without a response: closing a link, sending a message.
    method Post(kind: int, msg: Msg) returns (r: Code)
      requires Valid()
      modifies this`reqQueue, this`asked
      ensures Valid() && r == if msg.NoMsg? then ErrorMemoryNotEnough else Success
      ensures asked == if msg.NoMsg? then old(asked) else old(asked) + [Item(0, kind, msg)]
    {
      if msg.NoMsg? { return ErrorMemoryNotEnough; }
      reqQueue := reqQueue + [Item(0, kind, msg)];
      asked := asked + [Item(0, kind, msg)];
      return Success;
    }

    // The logic thread hands its requests over.
    method LogicReq()
      requires Valid()
      modifies this`reqQueue, this`swapReq
      ensures Valid() && reqQueue == [] && swapReq == old(swapReq) + old(reqQueue)
    {
      if reqQueue == [] { return; }
      swapReq := swapReq + reqQueue;
      reqQueue := [];
    }

    // The network thread takes what has been handed over.
    method WorkTake()
      requires Valid()
      modifies this`swapReq, this`reqTaken
      ensures Valid() && swapReq == [] && reqTaken == old(reqTaken) + old(swapReq)
    {
      reqTaken := reqTaken + swapReq;
      swapReq := [];
    }

    // The network thread works on one request.
    method WorkOne() returns (item: Item)
      requires Valid() && reqTaken != []
      modifies this`reqTaken, this`worked
      ensures Valid() && item == old(reqTaken)[0] && reqTaken == old(reqTaken)[1..] && worked == old(worked) + [item]
    {
      item := reqTaken[0];
      reqTaken := reqTaken[1..];
      worked := worked + [item];
    }

    // The network thread makes a response, or reports an event.
    method Tell(item: Item)
      requires Valid()
      modifies this`respQueue, this`told
      ensures Valid() && told == old(told) + [item] && respQueue == old(respQueue) + [item]
    {
      respQueue := respQueue + [item];
      told := told + [item];
    }

    // The network thread hands its responses over.
    method WorkResp()
      requires Valid()
      modifies this`respQueue, this`swapResp
      ensures Valid() && respQueue == [] && swapResp == old(swapResp) + old(respQueue)
    {
      if respQueue == [] { return; }
      swapResp := swapResp + respQueue;
      respQueue := [];
    }

    // The logic thread takes what has been handed over.
    method LogicTake()
      requires Valid()
      modifies this`swapResp, this`respTaken
      ensures Valid() && swapResp == [] && respTaken == old(respTaken) + old(swapResp)
    {
      respTaken := respTaken + swapResp;
      swapResp := [];
    }

    // The logic thread handles one response. The callback of a request runs if it is still waiting, and
    // it waits no longer then; a response without a message is dropped.
    method LogicOne() returns (item: Item)
      requires Valid() && respTaken != []
      modifies this`respTaken, this`heard, this`waiting, this`called
      ensures Valid() && item == old(respTaken)[0] && respTaken == old(respTaken)[1..] && heard == old(heard) + [item]
      ensures item.msg.Msg? && item.reqId in old(Ids(waiting)) ==>
        called == old(called) + [item.reqId] && Ids(waiting) == old(Ids(waiting)) - {item.reqId}
      ensures !(item.msg.Msg? && item.reqId in old(Ids(waiting))) ==> called == old(called) && waiting == old(waiting)
      ensures forall w :: w in waiting <==> w in old(waiting) && !(item.msg.Msg? && w.id == item.reqId)
    {
      item := respTaken[0];
      respTaken := respTaken[1..];
      heard := heard + [item];
      Handle(item);
    }

    method Handle(item: Item)
      requires Accounted(lastId, lastTime, waiting, called, expired)
      modifies this`waiting, this`called
      ensures Accounted(lastId, lastTime, waiting, called, expired)
      ensures item.msg.Msg? && item.reqId in old(Ids(waiting)) ==>
        called == old(called) + [item.reqId] && Ids(waiting) == old(Ids(waiting)) - {item.reqId}
      ensures !(item.msg.Msg? && item.reqId in old(Ids(waiting))) ==> called == old(called) && waiting == old(waiting)
      ensures forall w :: w in waiting <==> w in old(waiting) && !(item.msg.Msg? && w.id == item.reqId)
    {
      if item.msg.NoMsg? { return; }
      if item.reqId != 0 {
        var k := FindWaiting(item.reqId);
        if k < |waiting| {
          assert waiting[k] in waiting;
          Answer(k);
        }
      }
    }

    // The callback of a waiting request runs, and it waits no longer.
    method Answer(k: nat)
      requires Accounted(lastId, lastTime, waiting, called, expired) && k < |waiting|
      modifies this`waiting, this`called
      ensures Accounted(lastId, lastTime, waiting, called, expired) && called == old(called) + [old(waiting)[k].id]
      ensures Ids(waiting) == old(Ids(waiting)) - {old(waiting)[k].id}
      ensures forall w :: w in waiting <==> w in old(waiting) && w.id != old(waiting)[k].id
    {
      ghost var id := waiting[k].id;
      OneCalled(lastId, lastTime, waiting, called, expired, k);
      EraseKeeps(waiting, k);
      EraseHas(waiting, k);
      called := called + [id];
      waiting := waiting[..k] + waiting[k + 1..];
    }

    method FindWaiting(id: int) returns (k: nat)
      requires Ordered(waiting)
      ensures k <= |waiting| && (k < |waiting| ==> waiting[k].id == id) && (k == |waiting| ==> id !in Ids(waiting))
    {
      k := 0;
      while k < |waiting| && waiting[k].id != id
        invariant k <= |waiting| && forall j :: 0 <= j < k ==> waiting[j].id != id
      {
        k := k + 1;
      }
    }

    // Drops the requests made too long ago. The scan goes up by id and stops at the first that is not
    // too old; that none behind it is follows from the order.
    method Expire(now: int)
      requires Valid()
      modifies this`waiting, this`expired
      ensures Valid() && waiting == Fresh(old(waiting), now - reqTimeout)
      ensures expired == old(expired) + (Ids(old(waiting)) - Ids(waiting))
    {
      DropOld(now - reqTimeout);
    }

    method DropOld(since: int)
      requires Accounted(lastId, lastTime, waiting, called, expired)
      modifies this`waiting, this`expired
      ensures Accounted(lastId, lastTime, waiting, called, expired) && waiting == Fresh(old(waiting), since)
      ensures expired == old(expired) + (Ids(old(waiting)) - Ids(waiting))
    {
      ghost var before := waiting;
      while waiting != [] && waiting[0].time < since
        invariant Accounted(lastId, lastTime, waiting, called, expired)
        invariant Scanned(before, waiting, since) && expired == old(expired) + (Ids(before) - Ids(waiting))
        decreases |waiting|
      {
        FirstExpired(lastId, lastTime, waiting, called, expired);
        ScanOn(before, waiting, since, old(expired));
        expired := expired + {waiting[0].id};
        waiting := waiting[1..];
      }
      ScanDone(before, waiting, since);
    }

    // The network thread takes and works on everything handed over.
    method WorkReq()
      requires Valid()
      modifies this`swapReq, this`reqTaken, this`worked
      ensures Valid() && swapReq == reqTaken == [] && worked == old(worked) + old(reqTaken) + old(swapReq)
    {
      WorkTake();
      while reqTaken != []
        invariant Valid() && swapReq == [] && worked + reqTaken == old(worked) + old(reqTaken) + old(swapReq)
        decreases |reqTaken|
      {
        var item := WorkOne();
      }
    }

    // The logic thread takes and handles everything handed over.
    method LogicResp()
      requires Valid()
      modifies this`swapResp, this`respTaken, this`heard, this`waiting, this`called
      ensures Valid() && swapResp == respTaken == [] && heard == old(heard) + old(respTaken) + old(swapResp)
      ensures forall w :: w in waiting <==> w in old(waiting) && w.id !in called
    {
      LogicTake();
      while respTaken != []
        invariant Valid() && swapResp == [] && heard + respTaken == old(heard) + old(respTaken) + old(swapResp)
        invariant forall w :: w in waiting <==> w in old(waiting) && w.id !in called
        decreases |respTaken|
      {
        var item := LogicOne();
      }
    }

    // A round of the logic thread. Afterwards just those requests still wait whose callbacks have not run and
    // that were not made too long ago.
    method Update(now: int)
      requires Valid()
      modifies this
      ensures Valid() && swapResp == respTaken == reqQueue == [] && heard == old(heard) + old(respTaken) + old(swapResp)
      ensures swapReq == old(swapReq) + old(reqQueue) && worked == old(worked) && reqTaken == old(reqTaken)
      ensures asked == old(asked) && told == old(told) && respQueue == old(respQueue)
      ensures forall w :: w in waiting <==> w in old(waiting) && w.id !in called && w.time >= now - reqTimeout
    {
      LogicResp();
      LogicReq();
      Expire(now);
    }

    // A round of the logic thread, one of the network thread, and another of the logic thread bring over
    // everything that either side had to say.
    method RoundTrip(replies: seq<Item>, now: int, later: int)
      requires Valid()
      modifies this
      ensures Valid() && worked == asked == old(asked) && heard == told == old(told) + replies
    {
      Update(now);
      WorkReq();
      var i := 0;
      while i < |replies|
        invariant 0 <= i <= |replies| && Valid() && told == old(told) + replies[..i] && asked == worked == old(asked)
        invariant reqTaken == swapReq == reqQueue == []
      {
        assert replies[..i + 1] == replies[..i] + [replies[i]];
        Tell(replies[i]);
        i := i + 1;
      }
      assert replies[..i] == replies;
      WorkResp();
      Update(later);
    }
  }

  datatype Step =
    | Ask(kind: int, data: int, now: int) | Post(kind: int, msg: Msg) | LogicReq | WorkTake | WorkOne
    | Tell(item: Item) | WorkResp | LogicTake | LogicOne | Expire(now: int)

  // The clock does not go back, and ids do not run out.
  ghost predicate Clocked(steps: seq<Step>) {
    && |steps| < INT64_MAX && (forall i :: 0 <= i < |steps| && steps[i].Ask? ==> steps[i].now >= 0)
    && forall i, j :: 0 <= i < j < |steps| && steps[i].Ask? && steps[j].Ask? ==> steps[i].now <= steps[j].now
  }

  // However the steps of the two threads interleave: what has arrived on either side is a prefix of what was
  // sent, no callback runs twice, and none of a request that expired.
  method Run(reqTimeout: int, steps: seq<Step>) returns (t: PureNetThread)
    requires reqTimeout > 0 && Clocked(steps)
    ensures t.Valid() && t.worked <= t.asked && t.heard <= t.told
    ensures NoDup(t.called) && forall id :: id in t.called ==> id !in t.expired && id !in Ids(t.waiting)
  {
    t := new PureNetThread(reqTimeout);
    var i := 0;
    while i < |steps|
      invariant 0 <= i <= |steps| && t.Valid() && fresh(t) && t.lastId <= i
      invariant forall j :: i <= j < |steps| && steps[j].Ask? ==> steps[j].now >= t.lastTime
    {
      Take(t, steps[i]);
      i := i + 1;
    }
  }

  method Take(t: PureNetThread, step: Step)
    requires t.Valid() && (step.Ask? ==> step.now >= t.lastTime && t.lastId < INT64_MAX)
    modifies t
    ensures t.Valid() && t.lastId <= old(t.lastId) + 1 && t.lastTime == if step.Ask? then step.now else old(t.lastTime)
    ensures old(t.expired) <= t.expired && old(t.called) <= t.called && old(t.heard) <= t.heard &&
            old(t.worked) <= t.worked
    ensures step.Expire? ==> forall w :: w in t.waiting ==> w.time >= step.now - t.reqTimeout
  {
    if step.WorkTake? || step.WorkOne? || step.Tell? || step.WorkResp? {
      TakeWork(t, step);
    } else {
      TakeLogic(t, step);
    }
  }

  method TakeWork(t: PureNetThread, step: Step)
    requires t.Valid() && (step.WorkTake? || step.WorkOne? || step.Tell? || step.WorkResp?)
    modifies t
    ensures t.Valid() && t.lastId == old(t.lastId) && t.lastTime == old(t.lastTime)
    ensures t.expired == old(t.expired) && t.called == old(t.called) && t.heard == old(t.heard)
    ensures old(t.worked) <= t.worked
  {
    match step
    case WorkTake => t.WorkTake();
    case WorkOne => if t.reqTaken != [] { var item := t.WorkOne(); }
    case Tell(item) => t.Tell(item);
    case WorkResp => t.WorkResp();
  }

  method TakeLogic(t: PureNetThread, step: Step)
    requires t.Valid() && !step.WorkTake? && !step.WorkOne? && !step.Tell? && !step.WorkResp?
    requires step.Ask? ==> step.now >= t.lastTime && t.lastId < INT64_MAX
    modifies t
    ensures t.Valid() && t.lastId <= old(t.lastId) + 1 && t.lastTime == if step.Ask? then step.now else old(t.lastTime)
    ensures old(t.expired) <= t.expired && old(t.called) <= t.called && old(t.heard) <= t.heard
    ensures t.worked == old(t.worked)
    ensures step.Expire? ==> forall w :: w in t.waiting ==> w.time >= step.now - t.reqTimeout
  {
    match step
    case Ask(kind, data, now) => t.Ask(kind, data, now);
    case Post(kind, msg) => var r := t.Post(kind, msg);
    case LogicReq => t.LogicReq();
    case LogicTake => t.LogicTake();
    case LogicOne => if t.respTaken != [] { var item := t.LogicOne(); }
    case Expire(now) => t.Expire(now);
  }

  // The scan has come to ws: it has left out only requests that are too old.
  ghost predicate Scanned(before: seq<ReqItem>, ws: seq<ReqItem>, since: int) {
    Ids(ws) <= Ids(before) && Fresh(ws, since) == Fresh(before, since)
  }

  lemma ScanOn(before: seq<ReqItem>, ws: seq<ReqItem>, since: int, expired: set<int>)
    requires Ordered(ws) && ws != [] && ws[0].time < since && Scanned(before, ws, since)
    ensures Scanned(before, ws[1..], since)
    ensures expired + (Ids(before) - Ids(ws)) + {ws[0].id} == expired + (Ids(before) - Ids(ws[1..]))
  {
    FirstGoes(ws);
    assert ws[0] in ws && ws[0].id in Ids(ws);
  }

  lemma ScanDone(before: seq<ReqItem>, ws: seq<ReqItem>, since: int)
    requires Ordered(ws) && (ws == [] || ws[0].time >= since) && Scanned(before, ws, since)
    ensures ws == Fresh(before, since)
  {
    FreshFromFirst(ws, since);
  }

  lemma EraseKeeps(ws: seq<ReqItem>, k: nat)
    requires Ordered(ws) && k < |ws|
    ensures var r := ws[..k] + ws[k + 1..];
            Ordered(r) && Ids(r) == Ids(ws) - {ws[k].id} && forall w :: w in r ==> w in ws
  {
    EraseOrdered(ws, k);
    EraseHas(ws, k);
    assert ws[k] in ws;
  }

  lemma EraseOrdered(ws: seq<ReqItem>, k: nat)
    requires Ordered(ws) && k < |ws|
    ensures Ordered(ws[..k] + ws[k + 1..])
  {
    var r := ws[..k] + ws[k + 1..];
    assert forall i :: 0 <= i < |r| ==> r[i] == ws[if i < k then i else i + 1];
  }

  lemma EraseHas(ws: seq<ReqItem>, k: nat)
    requires Ordered(ws) && k < |ws|
    ensures forall w :: w in ws[..k] + ws[k + 1..] <==> w in ws && w.id != ws[k].id
  {
    var r := ws[..k] + ws[k + 1..];
    forall w | w in ws && w.id != ws[k].id ensures w in r {
      var i :| 0 <= i < |ws| && ws[i] == w;
      assert r[if i < k then i else i - 1] == w;
    }
    forall w | w in r ensures w in ws && w.id != ws[k].id {
      var i :| 0 <= i < |r| && r[i] == w;
      assert w == ws[if i < k then i else i + 1];
    }
  }

  lemma FirstGoes(ws: seq<ReqItem>)
    requires Ordered(ws) && ws != []
    ensures Ordered(ws[1..]) && Ids(ws[1..]) == Ids(ws) - {ws[0].id} && forall w :: w in ws[1..] ==> w in ws
  {
    EraseKeeps(ws, 0);
    assert ws[..0] + ws[1..] == ws[1..];
  }
}
