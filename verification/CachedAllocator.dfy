/** The batching ID allocator: its fields, the steps of its main loop, and the loop itself, each proved
    against IdAllocatorSpec. Channels are sequences; the root coordinator's answer is a parameter. */
module CachedAllocators {
  import opened Wrappers
  import opened IdRanges
  import opened IdAllocatorSpec
  import opened IdAllocatorRuns

  /** A request and the client that waits for it. */
  datatype IDRequest = IDRequest(client: nat, count: uint32)

  /** What Notify sends to a waiting client: for a served request, with the ID written into it. */
  datatype Notice = IDNotice(req: IDRequest, outcome: Outcome) | SyncNotice(client: nat)

  function Counts(reqs: seq<IDRequest>): (counts: seq<uint32>)
    ensures |counts| == |reqs|
    ensures forall i :: 0 <= i < |reqs| ==> counts[i] == reqs[i].count
  {
    seq(|reqs|, i requires 0 <= i < |reqs| => reqs[i].count)
  }

  /** Looking at one more request: picking goes on behind it or stops at it. */
  lemma PickOneMore(counts: seq<uint32>, i: nat, total: uint32, need: uint32)
    requires i < |counts|
    ensures PickLength(counts[i..], total, need)
            == if WrapU32(need + counts[i]) > total then 0
               else 1 + PickLength(counts[i+1..], total, WrapU32(need + counts[i]))
  {
    assert counts[i..][1..] == counts[i+1..];
  }

  /** One more request is served behind the ones before it. */
  lemma NoticesNext(reqs: seq<IDRequest>, start: int, i: nat)
    requires i < |reqs|
    ensures var counts, here := Counts(reqs), start + Sum(Counts(reqs)[..i]);
            && start + Sum(counts[..i+1]) == here + reqs[i].count
            && Notices(reqs[..i+1], ServedAs(Layout(start, counts[..i+1])))
               == Notices(reqs[..i], ServedAs(Layout(start, counts[..i]))) + [IDNotice(reqs[i], Served(here))]
  {
    LayoutNext(start, Counts(reqs), i);
    SumTakeNext(Counts(reqs), i);
  }

  /** One notice for every request, in order. */
  function Notices(reqs: seq<IDRequest>, outs: seq<Outcome>): (notices: seq<Notice>)
    requires |reqs| == |outs|
    ensures |notices| == |reqs|
    ensures forall i :: 0 <= i < |reqs| ==> notices[i] == IDNotice(reqs[i], outs[i])
  {
    seq(|reqs|, i requires 0 <= i < |reqs| => IDNotice(reqs[i], outs[i]))
  }

  function SyncNotices(clients: seq<nat>): (notices: seq<Notice>)
    ensures |notices| == |clients|
    ensures forall i :: 0 <= i < |clients| ==> notices[i] == SyncNotice(clients[i])
  {
    seq(|clients|, i requires 0 <= i < |clients| => SyncNotice(clients[i]))
  }

  /** The notices a batch receives in one iteration. */
  function BatchNotices(c: Cache, batch: seq<IDRequest>, answer: Answer): seq<Notice> {
    Notices(batch, BatchStep(c, Counts(batch), answer).outcomes)
  }

  /** An iteration that adopts no block: one pass, and the rest of the batch fails. */
  lemma BatchUnsynced(c: Cache, batch: seq<IDRequest>, answer: Answer, pass: Pass, reason: Reason)
    requires pass == ServePass(c, Counts(batch))
    requires answer.Refused? || |pass.ranges| == |batch|
    requires |pass.ranges| == |batch| || reason == SyncFailed
    ensures BatchStep(c, Counts(batch), answer).cache == pass.cache
    ensures var k := |pass.ranges|;
            BatchNotices(c, batch, answer)
            == Notices(batch[..k], ServedAs(pass.ranges)) + Notices(batch[k..], AllFailed(|batch| - k, reason))
  {
    BatchStepUnsynced(c, Counts(batch), answer);
  }

  /** An iteration that adopts a block: a second pass over the requests that were left. */
  lemma BatchSynced(c: Cache, batch: seq<IDRequest>, answer: Answer,
                    first: seq<Range>, rest: seq<IDRequest>, pass: Pass)
    requires first == ServePass(c, Counts(batch)).ranges
    requires !answer.Refused? && |first| < |batch|
    requires rest == batch[|first|..] && pass == ServePass(SyncStep(c, answer), Counts(rest))
    ensures BatchStep(c, Counts(batch), answer).cache == pass.cache
    ensures var m := |pass.ranges|;
            BatchNotices(c, batch, answer)
            == Notices(batch[..|first|], ServedAs(first)) + Notices(rest[..m], ServedAs(pass.ranges))
               + Notices(rest[m..], AllFailed(|rest| - m, Unexpected))
  {
    assert Counts(rest) == Counts(batch)[|first|..];
    BatchStepSynced(c, Counts(batch), answer);
    NoticesInThree(batch, |first|, |pass.ranges|, ServedAs(first), ServedAs(pass.ranges),
                   AllFailed(|rest| - |pass.ranges|, Unexpected));
  }

  lemma NoticesInThree(batch: seq<IDRequest>, i: nat, m: nat, a: seq<Outcome>, b: seq<Outcome>, c: seq<Outcome>)
    requires |a| == i && |b| == m && i + m + |c| == |batch|
    ensures Notices(batch, a + b + c)
            == Notices(batch[..i], a) + Notices(batch[i..][..m], b) + Notices(batch[i..][m..], c)
  {
    assert batch[i..][m..] == batch[i+m..] && batch[i..][..m] == batch[i..i+m];
  }

  class IDAllocator {
    var reqs: seq<IDRequest>
    var toDoReqs: seq<IDRequest>
    var canDoReqs: seq<IDRequest>
    var forceSyncChan: seq<nat>
    var syncReqs: seq<nat>
    var syncErr: bool
    var idStart: int
    var idEnd: int
    const countPerRPC: uint32 := COUNT_PER_RPC
    /** Everything sent to clients so far. */
    var notified: seq<Notice>

    constructor ()
      ensures Idle() && reqs == [] && forceSyncChan == [] && notified == []
      ensures Cached() == Start.cache
    {
      reqs, toDoReqs, canDoReqs := [], [], [];
      forceSyncChan, syncReqs := [], [];
      syncErr, idStart, idEnd := false, 0, 0;
      notified := [];
    }

    function Cached(): Cache
      reads this
    {
      Cache(idStart, idEnd)
    }

    /** Nothing is in flight: the state at the head of the main loop. */
    ghost predicate Idle()
      reads this
    {
      toDoReqs == [] && canDoReqs == [] && syncReqs == []
    }

    method GatherReqIDCount() returns (need: uint32)
      ensures need == WrapU32(Sum(Counts(toDoReqs)))
    {
      need := 0;
      ghost var counts := Counts(toDoReqs);
      for i := 0 to |toDoReqs|
        invariant need == WrapU32(Sum(counts[..i]))
      {
        SumTakeNext(counts, i);
        need := WrapU32(need + toDoReqs[i].count);
      }
      assert counts[..|toDoReqs|] == counts;
    }

    /** `asked` is the size the root coordinator is asked for, never below countPerRPC. Only a failing call counts as a
        failure: whatever else comes back replaces the cache. */
    method SyncID(answer: Answer) returns (ok: bool, asked: uint32)
      modifies this`idStart, this`idEnd
      ensures asked == AskedFor(Counts(toDoReqs))
      ensures ok == !answer.Refused?
      ensures Cached() == SyncStep(old(Cached()), answer)
      ensures ok ==> idStart == (if answer.Grant? then answer.id else 0) && idEnd - idStart == answer.count
    {
      var need := GatherReqIDCount();
      if need < countPerRPC {
        need := countPerRPC;
      }
      asked := need;
      if answer.Refused? {
        return false, asked;
      }
      idStart := if answer.Grant? then answer.id else 0;
      idEnd := idStart + answer.count;
      ok := true;
    }

    method CheckSync(timeout: bool) returns (b: bool)
      ensures b == (timeout || toDoReqs != [])
    {
      b := timeout || |toDoReqs| > 0;
    }

    /** `asked` lists the sizes the root coordinator is asked for: none, or one that covers what is waiting. */
    method Sync(timeout: bool, answer: Answer) returns (ok: bool, asked: seq<uint32>)
      modifies this`idStart, this`idEnd, this`syncErr
      ensures asked == if timeout || toDoReqs != [] then [AskedFor(Counts(toDoReqs))] else []
      ensures ok == (asked != [] && !answer.Refused?)
      ensures Cached() == if ok then SyncStep(old(Cached()), answer) else old(Cached())
      ensures syncErr == if asked != [] then answer.Refused? else old(syncErr)
    {
      ok, asked := false, [];
      if !timeout && |toDoReqs| == 0 {
        return;
      }
      var check := CheckSync(timeout);
      if !check {
        return;
      }
      var size;
      ok, size := SyncID(answer);
      syncErr := answer.Refused?;
      asked := [size];
    }

    method PickCanDo()
      requires canDoReqs == []
      modifies this`toDoReqs, this`canDoReqs
      ensures var k := PickLength(Counts(old(toDoReqs)), Available(Cached()), 0);
              canDoReqs == old(toDoReqs)[..k] && toDoReqs == old(toDoReqs)[k..]
    {
      var total := WrapU32(idEnd - idStart);
      var need: uint32 := 0;
      var idx := 0;
      ghost var all, counts := toDoReqs, Counts(toDoReqs);
      ghost var k := PickLength(counts, total, 0);
      assert counts[0..] == counts;
      while idx < |toDoReqs|
        invariant 0 <= idx <= |toDoReqs| && toDoReqs == all
        invariant canDoReqs == all[..idx]
        invariant k == idx + PickLength(counts[idx..], total, need)
      {
        var req := toDoReqs[idx];
        PickOneMore(counts, idx, total, need);
        need := WrapU32(need + req.count);
        if need <= total {
          canDoReqs := canDoReqs + [req];
          idx := idx + 1;
        } else {
          break;
        }
      }
      assert idx == k;
      toDoReqs := toDoReqs[idx..];
    }

    method Process(req: IDRequest) returns (id: int)
      modifies this`idStart
      ensures id == old(idStart)
      ensures idStart == old(idStart) + req.count
    {
      id := idStart;
      idStart := idStart + req.count;
    }

    /** Serves every picked request, in order, with back-to-back ranges. */
    method FinishRequest()
      modifies this`idStart, this`canDoReqs, this`notified
      ensures canDoReqs == []
      ensures idStart == old(idStart) + Sum(Counts(old(canDoReqs)))
      ensures notified == old(notified)
              + Notices(old(canDoReqs), ServedAs(Layout(old(idStart), Counts(old(canDoReqs)))))
    {
      ghost var counts, start := Counts(canDoReqs), idStart;
      for i := 0 to |canDoReqs|
        invariant canDoReqs == old(canDoReqs)
        invariant idStart == start + Sum(counts[..i])
        invariant notified == old(notified) + Notices(canDoReqs[..i], ServedAs(Layout(start, counts[..i])))
      {
        NoticesNext(canDoReqs, start, i);
        var id := Process(canDoReqs[i]);
        notified := notified + [IDNotice(canDoReqs[i], Served(id))];
      }
      assert counts[..|canDoReqs|] == counts && canDoReqs[..|canDoReqs|] == canDoReqs;
      canDoReqs := [];
    }

    /** Fails every request that is still waiting. */
    method FailRemainRequest()
      modifies this`toDoReqs, this`notified
      ensures toDoReqs == []
      ensures notified == old(notified)
              + Notices(old(toDoReqs), AllFailed(|old(toDoReqs)|, if syncErr then SyncFailed else Unexpected))
    {
      var reason := if syncErr then SyncFailed else Unexpected;
      for i := 0 to |toDoReqs|
        invariant toDoReqs == old(toDoReqs)
        invariant notified == old(notified) + Notices(toDoReqs[..i], AllFailed(i, reason))
      {
        notified := notified + [IDNotice(toDoReqs[i], Failed(reason))];
      }
      assert toDoReqs[..|toDoReqs|] == toDoReqs;
      toDoReqs := [];
    }

    method FinishSyncRequest()
      modifies this`syncReqs, this`notified
      ensures syncReqs == []
      ensures notified == old(notified) + SyncNotices(old(syncReqs))
    {
      for i := 0 to |syncReqs|
        invariant syncReqs == old(syncReqs)
        invariant notified == old(notified) + SyncNotices(syncReqs[..i])
      {
        notified := notified + [SyncNotice(syncReqs[i])];
      }
      assert syncReqs[..|syncReqs|] == syncReqs;
      syncReqs := [];
    }

    /** One pick and finish. */
    method ServePicked()
      requires canDoReqs == []
      modifies this`idStart, this`toDoReqs, this`canDoReqs, this`notified
      ensures canDoReqs == []
      ensures var pass := ServePass(old(Cached()), Counts(old(toDoReqs)));
              var k := |pass.ranges|;
              && Cached() == pass.cache
              && toDoReqs == old(toDoReqs)[k..]
              && notified == old(notified) + Notices(old(toDoReqs)[..k], ServedAs(pass.ranges))
    {
      ghost var all := toDoReqs;
      PickCanDo();
      assert Counts(canDoReqs) == Counts(all)[..|canDoReqs|];
      FinishRequest();
    }

    /** Moves the whole channel, with what is sent until its length is read, into toDoReqs. */
    method TakeRequests(late: seq<IDRequest>)
      requires reqs != [] && |reqs| - 1 + |late| <= MAX_CONCURRENT_REQUESTS
      requires toDoReqs == []
      modifies this`reqs, this`toDoReqs
      ensures reqs == [] && toDoReqs == old(reqs) + late
    {
      toDoReqs := toDoReqs + [reqs[0]];
      reqs := reqs[1..] + late;
      var pending := |reqs|;
      for i := 0 to pending
        invariant |reqs| == pending - i
        invariant toDoReqs + reqs == old(reqs) + late
      {
        toDoReqs := toDoReqs + [reqs[0]];
        reqs := reqs[1..];
      }
    }

    /** What follows in the same iteration: serve, ask for a block if requests are left, serve again, and
        fail whatever still remains. */
    method ServeBatch(answer: Answer) returns (asked: seq<uint32>)
      requires canDoReqs == []
      modifies this`idStart, this`idEnd, this`syncErr, this`toDoReqs, this`canDoReqs, this`notified
      ensures canDoReqs == [] && toDoReqs == []
      ensures Cached() == BatchStep(old(Cached()), Counts(old(toDoReqs)), answer).cache
      ensures asked == SizesAsked(old(Cached()), Counts(old(toDoReqs)))
      ensures notified == old(notified) + BatchNotices(old(Cached()), old(toDoReqs), answer)
    {
      ghost var batch, c0, before := toDoReqs, Cached(), notified;
      ghost var pass := ServePass(c0, Counts(batch));
      ServePicked();
      ghost var rest := toDoReqs;
      ghost var sent := Notices(batch[..|pass.ranges|], ServedAs(pass.ranges));
      var ok;
      ok, asked := Sync(false, answer);
      assert asked == SizesAsked(c0, Counts(batch)) by {
        assert Counts(rest) == Counts(batch)[|pass.ranges|..];
      }
      ghost var reason := if syncErr then SyncFailed else Unexpected;
      ghost var all := BatchNotices(c0, batch, answer);
      if ok {
        ghost var pass' := ServePass(SyncStep(c0, answer), Counts(rest));
        ghost var more := Notices(rest[..|pass'.ranges|], ServedAs(pass'.ranges));
        BatchSynced(c0, batch, answer, pass.ranges, rest, pass');
        ServePicked();
        Associative(before, sent, more);
        sent := sent + more;
      } else {
        BatchUnsynced(c0, batch, answer, pass, reason);
      }
      assert all == sent + Notices(toDoReqs, AllFailed(|toDoReqs|, reason));
      Associative(before, sent, Notices(toDoReqs, AllFailed(|toDoReqs|, reason)));
      FailRemainRequest();
    }

    /** The request branch of the main loop. One request has been received; `late` are the requests sent
        before the length of the channel is read. Everything that was on the channel is taken and
        answered once, in order, and nothing stays in flight. */
    method OnRequests(late: seq<IDRequest>, answer: Answer) returns (asked: seq<uint32>)
      requires Idle()
      requires reqs != [] && |reqs| - 1 + |late| <= MAX_CONCURRENT_REQUESTS
      modifies this
      ensures Idle() && reqs == [] && forceSyncChan == old(forceSyncChan)
      ensures Cached() == BatchStep(old(Cached()), Counts(old(reqs) + late), answer).cache
      ensures asked == SizesAsked(old(Cached()), Counts(old(reqs) + late))
      ensures notified == old(notified) + BatchNotices(old(Cached()), old(reqs) + late, answer)
    {
      TakeRequests(late);
      asked := ServeBatch(answer);
    }

    method TakeForceSyncs(late: seq<nat>)
      requires forceSyncChan != [] && syncReqs == []
      modifies this`forceSyncChan, this`syncReqs
      ensures forceSyncChan == [] && syncReqs == old(forceSyncChan) + late
    {
      syncReqs := syncReqs + [forceSyncChan[0]];
      forceSyncChan := forceSyncChan[1..] + late;
      var pending := |forceSyncChan|;
      for i := 0 to pending
        invariant |forceSyncChan| == pending - i
        invariant syncReqs + forceSyncChan == old(forceSyncChan) + late
      {
        syncReqs := syncReqs + [forceSyncChan[0]];
        forceSyncChan := forceSyncChan[1..];
      }
    }

    /** The force-sync branch. Every waiting client is told that the sync is done, also when the call failed and the
        cache is what it was. */
    method OnForceSync(late: seq<nat>, answer: Answer) returns (asked: seq<uint32>)
      requires Idle() && forceSyncChan != []
      modifies this
      ensures Idle() && forceSyncChan == [] && reqs == old(reqs)
      ensures Cached() == SyncStep(old(Cached()), answer) && asked == [200000]
      ensures notified == old(notified) + SyncNotices(old(forceSyncChan) + late)
    {
      TakeForceSyncs(late);
      var ok;
      ok, asked := Sync(true, answer);
      FinishSyncRequest();
    }

    /** The tick branch. No request waits at the head of the loop, so a tick only renews the cache. */
    method OnTick(answer: Answer) returns (asked: seq<uint32>)
      requires Idle()
      modifies this
      ensures Idle() && reqs == old(reqs) && forceSyncChan == old(forceSyncChan)
      ensures Cached() == SyncStep(old(Cached()), answer) && asked == [200000]
      ensures notified == old(notified)
    {
      ServePicked();
      var ok;
      ok, asked := Sync(true, answer);
      if ok {
        ServePicked();
      }
      FailRemainRequest();
    }

    /** Close tells every request still on the channel that the allocator is closing. Clients that wait
        for a forced sync are left waiting. */
    method RevokeRequest()
      modifies this`reqs, this`notified
      ensures reqs == []
      ensures notified == old(notified) + Notices(old(reqs), AllFailed(|old(reqs)|, Closing))
    {
      var n := |reqs|;
      ghost var all := reqs;
      assert all[0..] == all;
      for i := 0 to n
        invariant reqs == all[i..]
        invariant notified == old(notified) + Notices(all[..i], AllFailed(i, Closing))
      {
        notified := notified + [IDNotice(reqs[0], Failed(Closing))];
        reqs := reqs[1..];
      }
      assert all[..n] == all;
    }

    /** A batch arrives and is handled: the clients are given the ranges of the step, no others. */
    method TurnOfRequests(batch: seq<IDRequest>, answer: Answer) returns (asked: seq<uint32>)
      requires Idle() && reqs == [] && 1 <= |batch| <= MAX_BATCH
      modifies this
      ensures Idle() && reqs == [] && forceSyncChan == old(forceSyncChan)
      ensures Cached() == BatchStep(old(Cached()), Counts(batch), answer).cache
      ensures asked == SizesAsked(old(Cached()), Counts(batch))
      ensures notified == old(notified) + BatchNotices(old(Cached()), batch, answer)
      ensures Handed(notified) == Handed(old(notified)) + BatchStep(old(Cached()), Counts(batch), answer).ranges
    {
      HandedBatch(notified, Cached(), batch, answer);
      reqs := batch[..1];
      assert batch[..1] + batch[1..] == batch;
      asked := OnRequests(batch[1..], answer);
    }

    method TurnOfForceSyncs(clients: seq<nat>, answer: Answer) returns (asked: seq<uint32>)
      requires Idle() && forceSyncChan == [] && clients != []
      modifies this
      ensures Idle() && forceSyncChan == [] && reqs == old(reqs)
      ensures Cached() == SyncStep(old(Cached()), answer) && asked == [200000]
      ensures notified == old(notified) + SyncNotices(clients)
      ensures Handed(notified) == Handed(old(notified))
    {
      HandedNone(notified, SyncNotices(clients));
      forceSyncChan := clients[..1];
      assert clients[..1] + clients[1..] == clients;
      asked := OnForceSync(clients[1..], answer);
    }

    /** One turn of the main loop, seen from the clients: the cache and the ranges they have been given move on as the
        step of a run does, and the root coordinator is asked for what the run says, if at all. */
    method Wake(w: Wakeup, ghost h: History) returns (asked: seq<uint32>)
      requires Idle() && reqs == [] && forceSyncChan == []
      requires h.cache == Cached() && h.served == Handed(notified)
      requires w.Arrives()
      modifies this
      ensures Idle() && reqs == [] && forceSyncChan == []
      ensures Cached() == Next(h, EventOf(w)).cache
      ensures Handed(notified) == Next(h, EventOf(w)).served
      ensures asked == if Asks(h, EventOf(w)) then [Asked(h, EventOf(w))] else []
      ensures notified == old(notified) + NoticesOf(old(Cached()), w)
    {
      match w
      case Requests(batch, answer) =>
        BatchIsPasses(h, Counts(batch), answer);
        asked := TurnOfRequests(batch, answer);
      case ForceSyncs(clients, answer) => asked := TurnOfForceSyncs(clients, answer);
      case TickFires(answer) => asked := OnTick(answer);
    }

    /** The main loop over a finite script of wake-ups. Whatever the script, the cache and the ranges that
        clients have been given are those of the run, so RunsNeverReuseIds speaks about them; and every client that
        arrived has been notified once, in the order of arrival, and nobody else. */
    method MainLoop(script: seq<Wakeup>, ghost h: History)
      requires Idle() && reqs == [] && forceSyncChan == []
      requires h.cache == Cached() && h.served == Handed(notified)
      requires forall i :: 0 <= i < |script| ==> script[i].Arrives()
      modifies this
      ensures Idle() && reqs == [] && forceSyncChan == []
      ensures Cached() == Run(h, Events(script)).cache
      ensures Handed(notified) == Run(h, Events(script)).served
      ensures old(notified) <= notified
      ensures Addressees(notified) == Addressees(old(notified)) + Arrived(script)
    {
      ghost var now := h;
      assert script[0..] == script;
      for i := 0 to |script|
        invariant Idle() && reqs == [] && forceSyncChan == []
        invariant now.cache == Cached() && now.served == Handed(notified)
        invariant Run(now, Events(script[i..])) == Run(h, Events(script))
        invariant old(notified) <= notified
        invariant Addressees(notified) == Addressees(old(notified)) + Arrived(script[..i])
      {
        EventsStep(script, i, now);
        NoticesReach(notified, Cached(), script, i);
        var asked := Wake(script[i], now);
        now := Next(now, EventOf(script[i]));
        Associative(Addressees(old(notified)), Arrived(script[..i]), script[i].Clients());
      }
      assert script[..|script|] == script;
    }
  }

  /** The sizes that are asked for on behalf of a batch: none, or one for what the cache does not serve. */
  function SizesAsked(c: Cache, counts: seq<uint32>): (asked: seq<uint32>)
    ensures |asked| <= 1
  {
    var rest := counts[|ServePass(c, counts).ranges|..];
    if rest == [] then [] else [AskedFor(rest)]
  }

  /** Somebody who waits for a notice. */
  datatype Client = Requester(req: IDRequest) | Syncer(client: nat)

  /** Who the notices went to. */
  function Addressees(notices: seq<Notice>): (clients: seq<Client>)
    ensures |clients| == |notices|
    ensures forall i :: 0 <= i < |notices| ==>
              clients[i] == if notices[i].IDNotice? then Requester(notices[i].req) else Syncer(notices[i].client)
  {
    seq(|notices|, i requires 0 <= i < |notices| =>
      if notices[i].IDNotice? then Requester(notices[i].req) else Syncer(notices[i].client))
  }

  /** The notices of one turn of the loop. */
  function NoticesOf(c: Cache, w: Wakeup): seq<Notice> {
    match w
    case Requests(batch, answer) => BatchNotices(c, batch, answer)
    case ForceSyncs(clients, _) => SyncNotices(clients)
    case TickFires(_) => []
  }

  /** They go to those who arrived, once each and in order. */
  lemma NoticesReach(sent: seq<Notice>, c: Cache, script: seq<Wakeup>, i: nat)
    requires i < |script|
    ensures Addressees(sent + NoticesOf(c, script[i])) == Addressees(sent) + script[i].Clients()
    ensures Arrived(script[..i+1]) == Arrived(script[..i]) + script[i].Clients()
  {
    assert Addressees(NoticesOf(c, script[i])) == script[i].Clients();
    assert script[..i+1][..i] == script[..i];
  }

  /** Who arrives over a script, in order. */
  function Arrived(script: seq<Wakeup>): seq<Client> {
    if script == [] then [] else Arrived(script[..|script|-1]) + script[|script|-1].Clients()
  }

  /** What wakes the main loop up: the requests or forced syncs found on a channel, or the ticker. */
  datatype Wakeup =
    | Requests(batch: seq<IDRequest>, answer: Answer)
    | ForceSyncs(clients: seq<nat>, answer: Answer)
    | TickFires(answer: Answer)
  {
    /** A channel that wakes the loop holds something, and no more than its capacity besides. */
    predicate Arrives() {
      match this
      case Requests(batch, _) => 1 <= |batch| <= MAX_BATCH
      case ForceSyncs(clients, _) => 1 <= |clients|
      case TickFires(_) => true
    }

    function Clients(): (clients: seq<Client>)
      ensures Requests? ==> |clients| == |batch| && forall i :: 0 <= i < |batch| ==> clients[i] == Requester(batch[i])
      ensures ForceSyncs? ==>
                |clients| == |this.clients| && forall i :: 0 <= i < |clients| ==> clients[i] == Syncer(this.clients[i])
      ensures TickFires? ==> clients == []
    {
      match this
      case Requests(batch, _) => seq(|batch|, i requires 0 <= i < |batch| => Requester(batch[i]))
      case ForceSyncs(syncs, _) => seq(|syncs|, i requires 0 <= i < |syncs| => Syncer(syncs[i]))
      case TickFires(_) => []
    }
  }

  function EventOf(w: Wakeup): Event {
    match w
    case Requests(batch, answer) => Batch(Counts(batch), answer)
    case ForceSyncs(clients, answer) => ForceSync(|clients|, answer)
    case TickFires(answer) => Tick(answer)
  }

  function Events(script: seq<Wakeup>): seq<Event> {
    if script == [] then [] else [EventOf(script[0])] + Events(script[1..])
  }

  lemma EventsStep(script: seq<Wakeup>, i: nat, h: History)
    requires i < |script|
    ensures Run(h, Events(script[i..])) == Run(Next(h, EventOf(script[i])), Events(script[i+1..]))
  {
    assert script[i..][1..] == script[i+1..];
    assert Events(script[i..])[1..] == Events(script[i+1..]);
  }

  /** The ranges that clients have received, in the order of the notices. */
  function Handed(notices: seq<Notice>): seq<Range> {
    if notices == [] then []
    else
      var last := notices[|notices|-1];
      Handed(notices[..|notices|-1])
      + (if last.IDNotice? && last.outcome.Served?
         then [Range(last.outcome.id, last.outcome.id + last.req.count)] else [])
  }

  lemma {:induction false} HandedAppend(a: seq<Notice>, b: seq<Notice>)
    ensures Handed(a + b) == Handed(a) + Handed(b)
  {
    if b == [] {
      assert a + b == a;
    } else {
      var b' := b[..|b|-1];
      assert (a + b)[..|a + b|-1] == a + b';
      HandedAppend(a, b');
    }
  }

  lemma HandedNone(sent: seq<Notice>, notices: seq<Notice>)
    requires forall i :: 0 <= i < |notices| ==> notices[i].SyncNotice?
    ensures Handed(sent + notices) == Handed(sent)
  {
    HandedPrefix(notices, []);
    HandedAppend(sent, notices);
  }

  lemma {:induction false} HandedPrefix(notices: seq<Notice>, ranges: seq<Range>)
    requires |ranges| <= |notices|
    requires forall i :: 0 <= i < |ranges| ==>
               && notices[i].IDNotice? && notices[i].outcome == Served(ranges[i].start)
               && ranges[i].end == ranges[i].start + notices[i].req.count
    requires forall i :: |ranges| <= i < |notices| ==> notices[i].IDNotice? ==> notices[i].outcome.Failed?
    ensures Handed(notices) == ranges
  {
    var n := |notices|;
    if n == 0 {
    } else if |ranges| < n {
      HandedPrefix(notices[..n-1], ranges);
    } else {
      HandedPrefix(notices[..n-1], ranges[..n-1]);
    }
  }

  /** The notices of a batch carry exactly the ranges the step hands out. */
  lemma HandedBatch(sent: seq<Notice>, c: Cache, batch: seq<IDRequest>, answer: Answer)
    ensures Handed(sent + BatchNotices(c, batch, answer)) == Handed(sent) + BatchStep(c, Counts(batch), answer).ranges
  {
    ServedPrefixFailedSuffix(c, Counts(batch), answer);
    HandedPrefix(BatchNotices(c, batch, answer), BatchStep(c, Counts(batch), answer).ranges);
    HandedAppend(sent, BatchNotices(c, batch, answer));
  }

  /** MAIN RESULT for the program: a new allocator that runs through any script of wake-ups, with granted blocks that
      share no ID and without wrapping sums, notifies every client once and in the order of arrival, and never gives two
      clients the same ID if at most one declined answer came with a count; and it gives every client a range inside one
      granted block if and only if none was served from a declined answer. */
  method StartAndRun(script: seq<Wakeup>, ghost low: uint32) returns (ia: IDAllocator)
    requires forall i :: 0 <= i < |script| ==> script[i].Arrives()
    requires Fresh(Start, Events(script), low) && NeverWraps(Start, Events(script))
    ensures fresh(ia) && ia.Idle() && Addressees(ia.notified) == Arrived(script)
    ensures Run(Start, Events(script)).declines <= 1 ==> PairwiseApart(Handed(ia.notified))
    ensures (forall i :: 0 <= i < |Handed(ia.notified)| ==>
               InSomeBlock(Handed(ia.notified)[i], Run(Start, Events(script)).blocks))
            <==> NoStrayIds(Run(Start, Events(script)))
  {
    ia := new IDAllocator();
    ia.MainLoop(script, Start);
    RunResults(Events(script), low);
  }

  /** What holds of the ranges of a run. */
  lemma RunResults(events: seq<Event>, low: uint32)
    requires Fresh(Start, events, low) && NeverWraps(Start, events)
    ensures Run(Start, events).declines <= 1 ==> PairwiseApart(Run(Start, events).served)
    ensures (forall i :: 0 <= i < |Run(Start, events).served| ==>
               InSomeBlock(Run(Start, events).served[i], Run(Start, events).blocks))
            <==> NoStrayIds(Run(Start, events))
  {
    RunsStayInBlocksIff(events, low);
    if Run(Start, events).declines <= 1 {
      RunsNeverReuseIds(events, low);
    }
  }
}
