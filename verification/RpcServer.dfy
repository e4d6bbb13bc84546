/** src/dht/rpcserver.cpp: up to 256 outstanding calls, told apart by one-byte transaction ids;
    further calls wait in a queue. */
module RpcServers {
  import opened Common

  /** Calls are numbered in the order in which doCall created them. */
  type CallId = nat

  function Upto(n: nat): seq<nat>
  {
    seq(n, i => i)
  }

  function BytesBelow(n: nat): (s: set<int>)
    ensures forall i :: i in s <==> 0 <= i < n
  {
    if n == 0 then {} else BytesBelow(n - 1) + {n - 1}
  }

  lemma {:induction false} BytesBelowSize(n: nat)
    ensures |BytesBelow(n)| == n
  {
    if n > 0 {
      BytesBelowSize(n - 1);
    }
  }

  /** Pigeonhole: all 256 ids are in use exactly when there are 256 calls. */
  lemma AllIdsInUse(calls: map<Byte, CallId>)
    ensures |calls| == 256 <==> forall b: Byte :: b in calls
    ensures |calls| <= 256
  {
    var keys: set<int> := calls.Keys;
    BytesBelowSize(256);
    var all := BytesBelow(256);
    assert keys <= all;
    assert all == keys + (all - keys);
    if |calls| == 256 {
      assert |all - keys| == 0;
      assert forall b: Byte :: b in all;
    }
    if forall b: Byte :: b in calls {
      assert forall i :: i in all ==> i in calls;
      assert keys == all;
    }
  }

  lemma FreeIdExists(calls: map<Byte, CallId>) returns (f: Byte)
    requires |calls| < 256
    ensures f !in calls
  {
    AllIdsInUse(calls);
    f :| f !in calls;
  }

  /** Steps of the counter from `from` until it reaches `to`. */
  function Steps(from: Byte, to: Byte): int { (to - from) % 256 }

  function Next(b: Byte): Byte { (b + 1) % 256 }

  /** The counter `n` steps after `start`. */
  function Around(start: Byte, n: nat): Byte { (start + n) % 256 }

  /** The first free id from the counter on. */
  ghost predicate FirstFree(calls: map<Byte, CallId>, from: Byte, id: Byte)
  {
    id !in calls && forall b: Byte :: Steps(from, b) < Steps(from, id) ==> b in calls
  }

  /** All ids from the counter's start up to `at` are in use; it has not passed the free one. */
  ghost predicate Passed(calls: map<Byte, CallId>, from: Byte, at: Byte, free: Byte)
  {
    Steps(from, at) <= Steps(from, free) && forall b: Byte :: Steps(from, b) < Steps(from, at) ==> b in calls
  }

  lemma NoStep(calls: map<Byte, CallId>, from: Byte)
    ensures forall free: Byte :: Passed(calls, from, from, free)
  {
  }

  lemma StepsDiffer(from: Byte, a: Byte, b: Byte)
    ensures Steps(from, a) == Steps(from, b) <==> a == b
  {
  }

  lemma StepsNext(from: Byte, at: Byte, free: Byte)
    requires Steps(from, at) <= Steps(from, free) && at != free
    ensures Steps(from, Next(at)) == Steps(from, at) + 1 <= Steps(from, free)
  {
    StepsDiffer(from, at, free);
  }

  lemma PassOne(calls: map<Byte, CallId>, from: Byte, at: Byte, free: Byte)
    requires Passed(calls, from, at, free) && at in calls && free !in calls
    ensures Passed(calls, from, Next(at), free)
  {
    hide Steps, Next;
    StepsNext(from, at, free);
    forall b: Byte | Steps(from, b) < Steps(from, Next(at)) ensures b in calls {
      StepsDiffer(from, b, at);
    }
  }

  lemma PassedIsFirst(calls: map<Byte, CallId>, from: Byte, at: Byte, free: Byte)
    requires Passed(calls, from, at, free) && at !in calls
    ensures FirstFree(calls, from, at)
  {
  }

  lemma StepsTo(start: Byte, n: nat)
    requires n < 256
    ensures Steps(start, Around(start, n)) == n
  {
  }

  lemma AroundTo(start: Byte, b: Byte)
    ensures 0 <= Steps(start, b) < 256 && Around(start, Steps(start, b)) == b
  {
  }

  lemma AroundIsFirst(calls: map<Byte, CallId>, start: Byte, n: nat)
    requires n < 256 && Around(start, n) !in calls && forall j: nat :: j < n ==> Around(start, j) in calls
    ensures FirstFree(calls, start, Around(start, n))
  {
    hide Steps, Around;
    StepsTo(start, n);
    forall b: Byte | Steps(start, b) < Steps(start, Around(start, n)) ensures b in calls {
      AroundTo(start, b);
    }
  }

  lemma AroundStarts(start: Byte)
    ensures Around(start, 0) == start
  {
  }

  lemma AroundNext(start: Byte, n: nat)
    requires n < 256
    ensures Next(Around(start, n)) == Around(start, n + 1)
    ensures Around(start, n + 1) == start <==> n == 255
  {
  }

  lemma AroundMeetsAll(start: Byte, calls: map<Byte, CallId>)
    requires forall j: nat :: j < 256 ==> Around(start, j) in calls
    ensures forall b: Byte :: b in calls
  {
    forall b: Byte ensures b in calls {
      var j := (b - start) % 256;
      assert Around(start, j) == b;
    }
  }

  lemma StepsDecrease(from: Byte, to: Byte)
    requires from != to
    ensures 0 <= Steps(Next(from), to) < Steps(from, to)
  {
  }

  /** The state between events: active calls, the queue, what was sent and what was answered. */
  ghost predicate Consistent(calls: map<Byte, CallId>, mtids: map<CallId, Byte>, queue: seq<CallId>,
                             sent: seq<CallId>, done: set<CallId>, created: nat)
  {
    // requests go out in the order of creation, and nothing is lost between sending and the queue
    && sent + queue == Upto(created)
    // every call that was sent is either active under its own id or done
    && (forall b :: b in calls ==> calls[b] in mtids && mtids[calls[b]] == b)
    && (forall b :: b in calls ==> calls[b] < |sent| && calls[b] !in done)
    && (forall c :: 0 <= c < |sent| ==> c in mtids)
    && (forall c :: 0 <= c < |sent| && c !in done ==> mtids[c] in calls && calls[mtids[c]] == c)
    && (forall c :: c in done ==> c < |sent|)
  }

  /** Active calls have different ids. */
  lemma ActiveCallsAreDistinct(calls: map<Byte, CallId>, mtids: map<CallId, Byte>, queue: seq<CallId>,
                               sent: seq<CallId>, done: set<CallId>, created: nat, a: Byte, b: Byte)
    requires Consistent(calls, mtids, queue, sent, done, created)
    requires a in calls && b in calls && calls[a] == calls[b]
    ensures a == b
  {
  }

  /** A request goes out under a free id. */
  lemma Sending(calls: map<Byte, CallId>, mtids: map<CallId, Byte>, queue: seq<CallId>,
                sent: seq<CallId>, done: set<CallId>, created: nat, b: Byte)
    requires Consistent(calls, mtids, queue, sent, done, created) && b !in calls
    ensures queue != [] ==> queue[0] == |sent|
    ensures queue != [] ==>
      Consistent(calls[b := |sent|], mtids[|sent| := b], queue[1..], sent + [|sent|], done, created)
    ensures queue == [] ==> created == |sent|
    ensures queue == [] ==>
      Consistent(calls[b := created], mtids[created := b], [], sent + [created], done, created + 1)
  {
    var all := sent + queue;
    assert |all| == created;
    if queue != [] {
      assert all[|sent|] == queue[0];
      assert sent + [|sent|] + queue[1..] == all;
    } else {
      assert Upto(created + 1) == Upto(created) + [created];
      assert sent + [created] + [] == Upto(created + 1);
    }
  }

  predicate LastId(sent: seq<CallId>, mtids: map<CallId, Byte>, next: Byte)
  {
    |sent| > 0 && sent[|sent| - 1] in mtids && next == Next(mtids[sent[|sent| - 1]])
  }

  class RPCServer {
    var calls: map<Byte, CallId>
    var callQueue: seq<CallId>
    var nextMtid: Byte
    /** The transaction id stored in the request of each call. */
    var mtids: map<CallId, Byte>
    var created: nat

    ghost var sent: seq<CallId>
    ghost var done: set<CallId>

    ghost predicate Invariant()
      reads this
    {
      Consistent(calls, mtids, callQueue, sent, done, created)
    }

    /** Between events, calls wait only while all ids are in use. */
    ghost predicate Valid()
      reads this
    {
      Invariant() && (callQueue != [] ==> |calls| == 256)
    }

    constructor ()
      ensures Valid() && created == 0 && calls == map[] && done == {}
    {
      calls, callQueue, nextMtid, mtids, created := map[], [], 0, map[], 0;
      sent, done := [], {};
    }

    /** Sends the request at once if an id is free, and queues it otherwise. */
    method DoCall() returns (c: CallId)
      requires Valid()
      modifies this
      ensures Valid() && c == old(created) && created == old(created) + 1 && done == old(done)
      ensures |old(calls)| < 256 ==> sent == old(sent) + [c] && callQueue == old(callQueue) == []
      ensures |old(calls)| < 256 ==> calls.Keys == old(calls).Keys + {mtids[c]} && mtids[c] !in old(calls)
      // under the first free id from the counter on, where the counter then stays
      ensures |old(calls)| < 256 ==> FirstFree(old(calls), old(nextMtid), mtids[c]) && nextMtid == mtids[c]
      ensures |old(calls)| == 256 ==> nextMtid == old(nextMtid)
      ensures |old(calls)| == 256 ==> sent == old(sent) && callQueue == old(callQueue) + [c] && calls == old(calls)
      ensures forall b :: b in old(calls) ==> b in calls && calls[b] == old(calls)[b]
    {
      hide Consistent;
      c := created;
      AllIdsInUse(calls);
      var free := FindId();
      if free.None? {
        QueueIt(calls, mtids, callQueue, sent, done, created);
        callQueue := callQueue + [c];
        created := created + 1;
        return;
      }
      var mtid := free.value;
      Sending(calls, mtids, callQueue, sent, done, created, mtid);
      mtids := mtids[c := mtid];
      sent := sent + [c];
      calls := calls[mtid := c];
      created := created + 1;
    }

    /** Looks for a free id from the counter on, once around. */
    method FindId() returns (mtid: Option<Byte>)
      modifies this`nextMtid
      ensures mtid.None? <==> forall b: Byte :: b in calls
      ensures mtid.Some? ==> FirstFree(calls, old(nextMtid), mtid.value) && nextMtid == mtid.value
      ensures mtid.None? ==> nextMtid == old(nextMtid)
    {
      hide Around;
      var start := nextMtid;
      ghost var n: nat := 0;
      AroundStarts(start);
      while nextMtid in calls
        invariant n < 256 && nextMtid == Around(start, n)
        invariant forall j: nat :: j < n ==> Around(start, j) in calls
        decreases 256 - n
      {
        AroundNext(start, n);
        nextMtid := Next(nextMtid);
        if nextMtid == start {
          assert n == 255;
          AroundMeetsAll(start, calls);
          return None;
        }
        n := n + 1;
      }
      AroundIsFirst(calls, start, n);
      return Some(nextMtid);
    }

    /** Moves the counter to a free id; there is one. */
    method SkipUsedIds(ghost free: Byte)
      requires free !in calls
      modifies this`nextMtid
      ensures FirstFree(calls, old(nextMtid), nextMtid)
    {
      hide Steps, Next, FirstFree;
      ghost var start := nextMtid;
      NoStep(calls, start);
      while nextMtid in calls
        invariant Passed(calls, start, nextMtid, free)
        decreases Steps(nextMtid, free)
      {
        StepsDecrease(nextMtid, free);
        PassOne(calls, start, nextMtid, free);
        nextMtid := Next(nextMtid);
      }
      assert FirstFree(calls, start, nextMtid) by { PassedIsFirst(calls, start, nextMtid, free); }
    }

    /** Sends queued requests for as long as there are free ids. */
    method DoQueuedCalls()
      requires Invariant()
      modifies this
      ensures Valid() && created == old(created) && done == old(done)
      ensures old(sent) <= sent
      // the counter ends right behind the last id that was given
      ensures if sent == old(sent) then nextMtid == old(nextMtid) else LastId(sent, mtids, nextMtid)
      ensures forall b :: b in old(calls) ==> b in calls && calls[b] == old(calls)[b]
    {
      hide Consistent;
      while |callQueue| > 0 && |calls| < 256
        invariant Invariant() && created == old(created) && done == old(done) && old(sent) <= sent
        invariant if sent == old(sent) then nextMtid == old(nextMtid) else LastId(sent, mtids, nextMtid)
        invariant forall b :: b in old(calls) ==> b in calls && calls[b] == old(calls)[b]
        decreases |callQueue|
      {
        var c := callQueue[0];
        ghost var free := FreeIdExists(calls);
        SkipUsedIds(free);
        Sending(calls, mtids, callQueue, sent, done, created, nextMtid);
        callQueue := callQueue[1..];
        var mtid := nextMtid;
        mtids := mtids[c := mtid];
        nextMtid := Next(nextMtid);
        sent := sent + [c];
        calls := calls[mtid := c];
      }
      AllIdsInUse(calls);
    }

    /** A message arrived. Handling it may make `applied` calls; if it answers an active call, the
        listeners of that call may make `nested` more before the call is removed. */
    method DataReceived(mtid: seq<Byte>, isResponse: bool, applied: nat, nested: nat)
      requires Valid()
      modifies this
      ensures Valid() && old(sent) <= sent
      ensures created == old(created) + applied + if done == old(done) then 0 else nested
      ensures done == old(done) || (isResponse && |mtid| == 1 && exists c :: c !in old(done) && done == old(done) + {c})
      ensures isResponse && |mtid| == 1 && mtid[0] in old(calls) ==> done == old(done) + {old(calls)[mtid[0]]}
      ensures forall b :: b in old(calls) && !(isResponse && mtid == [b]) ==> b in calls && calls[b] == old(calls)[b]
    {
      hide Consistent;
      MakeCalls(applied);
      if isResponse && |mtid| == 1 && mtid[0] in calls {
        var c := calls[mtid[0]];
        MakeCalls(nested);
        Removing(calls, mtids, callQueue, sent, done, created, mtid[0]);
        done := done + {c};
        calls := calls - {mtid[0]};
        DoQueuedCalls();
      }
    }

    method MakeCalls(n: nat)
      requires Valid()
      modifies this
      ensures Valid() && old(sent) <= sent && done == old(done) && created == old(created) + n
      ensures forall b :: b in old(calls) ==> b in calls && calls[b] == old(calls)[b]
    {
      hide Consistent;
      for i := 0 to n
        invariant Valid() && old(sent) <= sent && done == old(done) && created == old(created) + i
        invariant forall b :: b in old(calls) ==> b in calls && calls[b] == old(calls)[b]
      {
        AllIdsInUse(calls);
        var _ := DoCall();
      }
    }

    /** The timer of a call ran out. The server looks up the id in the request of that call, so if
        the call was over already, another call that has the id by now is ended in its place. */
    method TimedOut(c: CallId)
      requires Valid() && c < |sent|
      modifies this
      ensures Valid() && old(sent) <= sent && created == old(created)
      ensures c in old(mtids) && done == old(done) + Holder(old(calls), old(mtids)[c])
      ensures c !in old(done) <==> Holder(old(calls), old(mtids)[c]) == {c}
      ensures forall b :: b in old(calls) && b != old(mtids)[c] ==> b in calls && calls[b] == old(calls)[b]
    {
      hide Consistent;
      HolderIs(calls, mtids, callQueue, sent, done, created, c);
      var mtid := mtids[c];
      if mtid in calls {
        Removing(calls, mtids, callQueue, sent, done, created, mtid);
        done := done + {calls[mtid]};
        calls := calls - {mtid};
      }
      DoQueuedCalls();
    }
  }

  /** The active call with this id, if there is one. */
  function Holder(calls: map<Byte, CallId>, mtid: Byte): set<CallId> { if mtid in calls then {calls[mtid]} else {} }

  /** The id of a call that was sent belongs to it until it is over, and never afterwards. */
  lemma HolderIs(calls: map<Byte, CallId>, mtids: map<CallId, Byte>, queue: seq<CallId>,
                 sent: seq<CallId>, done: set<CallId>, created: nat, c: CallId)
    requires Consistent(calls, mtids, queue, sent, done, created) && c < |sent|
    ensures c in mtids && (c !in done <==> Holder(calls, mtids[c]) == {c})
  {
    if c in done && mtids[c] in calls {
      assert calls[mtids[c]] != c;
    }
  }

  /** A run in which that happens: the first call is answered, the next 256 use all ids again, and
      then the timer of the first one runs out. */
  method LateTimeout() returns (s: RPCServer, c: CallId)
    ensures s.Valid() && s.done == {0, c} && c > 0
  {
    hide Consistent;
    s := FirstAnswered();
    FillUp(s);
    HolderIs(s.calls, s.mtids, s.callQueue, s.sent, s.done, s.created, 0);
    c := s.calls[s.mtids[0]];
    s.TimedOut(0);
  }

  method FirstAnswered() returns (s: RPCServer)
    ensures fresh(s) && s.Valid() && s.done == {0} && |s.sent| > 0
  {
    hide Consistent;
    s := new RPCServer();
    var first := s.DoCall();
    HolderIs(s.calls, s.mtids, s.callQueue, s.sent, s.done, s.created, 0);
    s.DataReceived([s.mtids[0]], true, 0, 0);
  }

  method FillUp(s: RPCServer)
    requires s.Valid()
    modifies s
    ensures s.Valid() && s.done == old(s.done) && old(s.sent) <= s.sent && forall b: Byte :: b in s.calls
  {
    hide Consistent;
    AllIdsInUse(s.calls);
    while |s.calls| < 256
      invariant s.Valid() && s.done == old(s.done) && old(s.sent) <= s.sent && |s.calls| <= 256
      decreases 256 - |s.calls|
    {
      ghost var before := s.calls;
      var _ := s.DoCall();
      AllIdsInUse(s.calls);
      MoreCalls(before, s.calls);
    }
    AllIdsInUse(s.calls);
  }

  lemma MoreCalls(calls: map<Byte, CallId>, calls': map<Byte, CallId>)
    requires exists b: Byte :: b !in calls && calls'.Keys == calls.Keys + {b}
    ensures |calls'| == |calls| + 1
  {
    assert |calls'| == |calls'.Keys| && |calls| == |calls.Keys|;
  }

  lemma QueueIt(calls: map<Byte, CallId>, mtids: map<CallId, Byte>, queue: seq<CallId>,
                sent: seq<CallId>, done: set<CallId>, created: nat)
    requires Consistent(calls, mtids, queue, sent, done, created)
    ensures Consistent(calls, mtids, queue + [created], sent, done, created + 1)
  {
    assert Upto(created + 1) == Upto(created) + [created];
    assert sent + (queue + [created]) == (sent + queue) + [created];
  }

  lemma Removing(calls: map<Byte, CallId>, mtids: map<CallId, Byte>, queue: seq<CallId>,
                 sent: seq<CallId>, done: set<CallId>, created: nat, b: Byte)
    requires Consistent(calls, mtids, queue, sent, done, created) && b in calls
    ensures calls[b] !in done
    ensures Consistent(calls - {b}, mtids, queue, sent, done + {calls[b]}, created)
  {
  }
}
