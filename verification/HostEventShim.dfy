/**
 The libusb shim that answers the device's host timestamp interrupts
 (`bcm_cv_host_event_shim.c`): a bounded retry loop meant to act as a filter on
 the stream of interrupt transfers.
 */
module HostEventShim {
  import opened Bytes
  import opened Wrappers
  import opened Timestamps

  const INTERRUPT_ENDPOINT := 0x85
  const GET_HOST_TIMESTAMP_INTERRUPT := 5
  const MAX_HOST_EVENTS := 8

  // ----- One call -----

  /** A caller's arguments: which endpoint, and which of its out-parameters are given. */
  datatype Call = Call(endpoint: byte, hasData: bool, hasLength: bool)

  /** What a transfer reports: its status, and the bytes in the buffer, counted by the actual length. */
  datatype Reply = Reply(status: int, bytes: seq<byte>)

  /** What the device answers, transfer by transfer, and what each sync returns. */
  datatype World = World(device: nat -> Reply, sync: nat -> int)

  /** What transfer number `n` reports. */
  function Read(w: World, n: nat): Reply { w.device(n) }

  /** What sync number `n` returns. */
  function SyncStatus(w: World, n: nat): int { w.sync(n) }

  /** `load_le32`. */
  function LoadLe32(data: seq<byte>): nat
    requires |data| >= 4
  {
    data[0] as int + 0x100 * (data[1] as int) + 0x1_0000 * (data[2] as int) + 0x100_0000 * (data[3] as int)
  }

  /** The transfer delivered a host timestamp interrupt the shim answers. */
  predicate IsHostEvent(call: Call, r: Reply) {
    && r.status == 0 && call.endpoint == INTERRUPT_ENDPOINT
    && call.hasLength && |r.bytes| >= 4 && call.hasData
    && LoadLe32(r.bytes) == GET_HOST_TIMESTAMP_INTERRUPT
  }

  /** Exactly the successful transfers on endpoint 0x85 whose data starts with a little-endian 5. */
  lemma HostEventExact(call: Call, r: Reply)
    ensures IsHostEvent(call, r) <==>
      call == Call(0x85, true, true) && r.status == 0 && [5, 0, 0, 0] <= r.bytes
  {
    if |r.bytes| >= 4 {
      var a, b, c, d := r.bytes[0], r.bytes[1], r.bytes[2], r.bytes[3];
      assert r.bytes[..4] == [a, b, c, d];
    }
  }

  datatype Ending = Delivered | SyncFailed(status: int) | TooMany

  /** How a call ends, and how many transfers and syncs have been made by then. */
  datatype Outcome = Outcome(taken: nat, syncs: nat, ending: Ending)

  /** A call that may still handle `budget` host events. */
  function Transfer(w: World, call: Call, taken: nat, syncs: nat, budget: nat): (o: Outcome)
    ensures o.taken >= taken && o.syncs >= syncs && (budget > 0 ==> o.taken > taken)
    decreases budget
  {
    if budget == 0 then Outcome(taken, syncs, TooMany)
    else if !IsHostEvent(call, Read(w, taken)) then Outcome(taken + 1, syncs, Delivered)
    else if SyncStatus(w, syncs) < 0 then Outcome(taken + 1, syncs + 1, SyncFailed(SyncStatus(w, syncs)))
    else Transfer(w, call, taken + 1, syncs + 1, budget - 1)
  }

  /** The last transfer of a call. */
  function Last(w: World, o: Outcome): Reply
    requires o.taken > 0
  {
    Read(w, o.taken - 1)
  }

  lemma LastIs(w: World, o: Outcome, n: nat)
    requires o.taken == n + 1
    ensures Last(w, o) == Read(w, n)
  {}

  function Status(w: World, o: Outcome): int
    requires o.taken > 0
  {
    match o.ending
    case Delivered => Last(w, o).status
    case SyncFailed(status) => status
    case TooMany => LIBUSB_ERROR_OTHER
  }

  /** The result of a call: a status, and the bytes of its last transfer. */
  function ResultOf(w: World, call: Call, o: Outcome): Item
    requires o.taken > 0
  {
    Item(call, Reply(Status(w, o), Last(w, o).bytes))
  }

  lemma TransferUnfolds(w: World, call: Call, taken: nat, syncs: nat, budget: nat)
    ensures Transfer(w, call, taken, syncs, budget) ==
      if budget == 0 then Outcome(taken, syncs, TooMany)
      else if !IsHostEvent(call, Read(w, taken)) then Outcome(taken + 1, syncs, Delivered)
      else if SyncStatus(w, syncs) < 0 then Outcome(taken + 1, syncs + 1, SyncFailed(SyncStatus(w, syncs)))
      else Transfer(w, call, taken + 1, syncs + 1, budget - 1)
  {}

  /**
   The loop of `libusb_interrupt_transfer`, after `taken` transfers and `syncs`
   syncs: the status, the last transfer, whose bytes the caller sees, and the new
   counts.
   */
  method HandleTransfers(w: World, call: Call, taken: nat, syncs: nat)
    returns (status: int, last: Option<Reply>, nowTaken: nat, nowSyncs: nat)
    ensures
      var o := Transfer(w, call, taken, syncs, MAX_HOST_EVENTS);
      && nowTaken == o.taken && nowSyncs == o.syncs
      && status == Status(w, o) && last == Some(Last(w, o))
  {
    nowTaken, nowSyncs, last := taken, syncs, None;
    hide IsHostEvent, Transfer, Read, SyncStatus, Last;
    ghost var o := Transfer(w, call, taken, syncs, MAX_HOST_EVENTS);
    var handled := 0;
    ghost var at := 0;
    while handled < MAX_HOST_EVENTS
      invariant 0 <= handled <= MAX_HOST_EVENTS && nowTaken == taken + handled && nowSyncs == syncs + handled
      invariant o == Transfer(w, call, nowTaken, nowSyncs, MAX_HOST_EVENTS - handled)
      invariant handled > 0 ==> nowTaken == at + 1 && last == Some(Read(w, at))
    {
      TransferUnfolds(w, call, nowTaken, nowSyncs, MAX_HOST_EVENTS - handled);
      var reply := Read(w, nowTaken);
      at, nowTaken, last := nowTaken, nowTaken + 1, Some(reply);
      if !IsHostEvent(call, reply) {
        LastIs(w, o, at);
        status := reply.status;
        return;
      }
      status := SyncStatus(w, nowSyncs);
      nowSyncs := nowSyncs + 1;
      if status < 0 {
        LastIs(w, o, at);
        return;
      }
      handled := handled + 1;
    }
    TransferUnfolds(w, call, nowTaken, nowSyncs, 0);
    LastIs(w, o, at);
    status := LIBUSB_ERROR_OTHER;
  }

  /** `libusb_interrupt_transfer`: nothing is transferred if the real functions were not found. */
  method InterruptTransfer(w: World, resolved: bool, call: Call, taken: nat, syncs: nat)
    returns (status: int, last: Option<Reply>, nowTaken: nat, nowSyncs: nat)
    ensures !resolved ==> status == LIBUSB_ERROR_OTHER && last == None && nowTaken == taken && nowSyncs == syncs
    ensures resolved ==>
      var o := Transfer(w, call, taken, syncs, MAX_HOST_EVENTS);
      && nowTaken == o.taken && nowSyncs == o.syncs
      && status == Status(w, o) && last == Some(Last(w, o))
  {
    if !resolved {
      return LIBUSB_ERROR_OTHER, None, taken, syncs;
    }
    hide Transfer, Status, Last;
    status, last, nowTaken, nowSyncs := HandleTransfers(w, call, taken, syncs);
  }

  /** The status a caller gets: the transfer's own; the negative one of the last sync; or -99 after too many events. */
  lemma {:induction false} StatusExact(w: World, call: Call, taken: nat, syncs: nat, budget: nat)
    requires budget > 0
    ensures var o := Transfer(w, call, taken, syncs, budget);
      match o.ending
      case Delivered => !IsHostEvent(call, Read(w, o.taken - 1)) && Status(w, o) == Read(w, o.taken - 1).status
      case SyncFailed(status) => o.syncs > 0 && Status(w, o) == SyncStatus(w, o.syncs - 1) < 0
      case TooMany => Status(w, o) == -99
    decreases budget
  {
    hide IsHostEvent, Read, SyncStatus;
    if budget > 1 {
      StatusExact(w, call, taken + 1, syncs + 1, budget - 1);
    }
  }

  // ----- Any sequence of calls -----

  /** A transfer made, or a result handed out, for a call. */
  datatype Item = Item(call: Call, reply: Reply)

  /** The transfers number `from` up to `to`, all made for one call. */
  function Made(w: World, call: Call, from: nat, to: nat): (r: seq<Item>)
    requires from <= to
    ensures |r| == to - from
  {
    seq(to - from, i requires 0 <= i < to - from => Item(call, Read(w, from + i)))
  }

  /** What the shim is meant to let through. */
  function Passed(items: seq<Item>): (r: seq<Item>)
    ensures |r| <= |items|
  {
    if items == [] then []
    else (if IsHostEvent(items[0].call, items[0].reply) then [] else [items[0]]) + Passed(items[1..])
  }

  /** All the transfers, all the results, and the counts, after a run of calls. */
  datatype Run = Run(taken: nat, syncs: nat, made: seq<Item>, results: seq<Item>, undelivered: nat)

  function CallOutcome(w: World, call: Call, r: Run): Outcome {
    Transfer(w, call, r.taken, r.syncs, MAX_HOST_EVENTS)
  }

  function Extend(w: World, before: Run, call: Call): Run {
    var o := CallOutcome(w, call, before);
    Run(
      o.taken,
      o.syncs,
      before.made + Made(w, call, before.taken, o.taken),
      before.results + [ResultOf(w, call, o)],
      before.undelivered + if o.ending == Delivered then 0 else 1)
  }

  function RunCalls(w: World, calls: seq<Call>): Run {
    if calls == [] then Run(0, 0, [], [], 0)
    else Extend(w, RunCalls(w, calls[..|calls| - 1]), calls[|calls| - 1])
  }

  lemma {:induction false} PassedAdd(a: seq<Item>, b: seq<Item>)
    ensures Passed(a + b) == Passed(a) + Passed(b)
  {
    hide IsHostEvent;
    if a == [] {
      assert a + b == b;
    } else {
      assert (a + b)[1..] == a[1..] + b;
      PassedAdd(a[1..], b);
    }
  }

  lemma FirstMade(w: World, call: Call, from: nat, to: nat)
    requires from < to
    ensures Made(w, call, from, to) == [Item(call, Read(w, from))] + Made(w, call, from + 1, to)
  {}

  lemma FirstPassed(item: Item, rest: seq<Item>)
    ensures Passed([item] + rest) == (if IsHostEvent(item.call, item.reply) then [] else [item]) + Passed(rest)
  {}

  lemma NothingMade(w: World, call: Call, at: nat)
    ensures Made(w, call, at, at) == [] && Passed([]) == []
  {}

  /** Of one call's transfers only the last can pass, and it does exactly when the call delivers it. */
  lemma {:induction false} CallFilters(w: World, call: Call, taken: nat, syncs: nat, budget: nat)
    ensures var o := Transfer(w, call, taken, syncs, budget);
      && Passed(Made(w, call, taken, o.taken)) ==
           (if o.ending == Delivered then [Item(call, Last(w, o))] else [])
      && o.syncs - syncs == |Made(w, call, taken, o.taken)| - |Passed(Made(w, call, taken, o.taken))|
    decreases budget
  {
    hide IsHostEvent, Made, Passed, Transfer, Read, SyncStatus;
    TransferUnfolds(w, call, taken, syncs, budget);
    var o := Transfer(w, call, taken, syncs, budget);
    if budget == 0 {
      NothingMade(w, call, taken);
    } else {
      FirstMade(w, call, taken, o.taken);
      FirstPassed(Item(call, Read(w, taken)), Made(w, call, taken + 1, o.taken));
      if IsHostEvent(call, Read(w, taken)) && SyncStatus(w, syncs) >= 0 {
        CallFilters(w, call, taken + 1, syncs + 1, budget - 1);
      } else {
        NothingMade(w, call, taken + 1);
      }
    }
  }

  lemma DeliveredResult(w: World, call: Call, o: Outcome)
    requires o.taken > 0 && o.ending == Delivered
    ensures ResultOf(w, call, o) == Item(call, Last(w, o))
  {}

  /**
   After any calls, the transfers let through number the calls that delivered,
   and every host event read was answered by exactly one sync.
   */
  lemma {:induction false} EachEventAnsweredOnce(w: World, calls: seq<Call>)
    ensures var r := RunCalls(w, calls);
      && |Passed(r.made)| == |calls| - r.undelivered == |r.results| - r.undelivered
      && r.syncs == |r.made| - |Passed(r.made)|
  {
    if calls == [] {
      assert Passed([]) == [];
    } else {
      hide Transfer, Status, Made, Passed, ResultOf, Read, SyncStatus;
      var init, call := calls[..|calls| - 1], calls[|calls| - 1];
      EachEventAnsweredOnce(w, init);
      var before := RunCalls(w, init);
      var o := CallOutcome(w, call, before);
      CallFilters(w, call, before.taken, before.syncs, MAX_HOST_EVENTS);
      PassedAdd(before.made, Made(w, call, before.taken, o.taken));
    }
  }

  lemma {:induction false} AllDelivered(w: World, calls: seq<Call>)
    requires RunCalls(w, calls).undelivered == 0
    ensures RunCalls(w, calls).results == Passed(RunCalls(w, calls).made)
  {
    if calls == [] {
      assert Passed([]) == [];
    } else {
      hide Transfer, Status, Made, Passed, ResultOf, Read, SyncStatus;
      var init, call := calls[..|calls| - 1], calls[|calls| - 1];
      AllDelivered(w, init);
      var before := RunCalls(w, init);
      var o := CallOutcome(w, call, before);
      CallFilters(w, call, before.taken, before.syncs, MAX_HOST_EVENTS);
      PassedAdd(before.made, Made(w, call, before.taken, o.taken));
      DeliveredResult(w, call, o);
    }
  }

  /** The next `k` transfers are host events, each with a sync that succeeds. */
  predicate Handled(w: World, call: Call, taken: nat, syncs: nat, k: nat)
    decreases k
  {
    k == 0 ||
    (&& IsHostEvent(call, Read(w, taken)) && SyncStatus(w, syncs) >= 0
     && Handled(w, call, taken + 1, syncs + 1, k - 1))
  }

  /** After `k` handled events, the next one's sync fails. */
  predicate FailsAfter(w: World, call: Call, taken: nat, syncs: nat, k: nat) {
    && Handled(w, call, taken, syncs, k)
    && IsHostEvent(call, Read(w, taken + k)) && SyncStatus(w, syncs + k) < 0
  }

  /** A call fails to deliver exactly by a failed sync or by handling its whole budget of host events. */
  lemma {:induction false} WhenUndelivered(w: World, call: Call, taken: nat, syncs: nat, budget: nat)
    ensures var ending := Transfer(w, call, taken, syncs, budget).ending;
      && (ending.TooMany? <==> Handled(w, call, taken, syncs, budget))
      && (ending.SyncFailed? <==> exists k :: 0 <= k < budget && FailsAfter(w, call, taken, syncs, k))
    decreases budget
  {
    hide IsHostEvent, Read, SyncStatus;
    TransferUnfolds(w, call, taken, syncs, budget);
    if budget > 0 && IsHostEvent(call, Read(w, taken)) {
      if SyncStatus(w, syncs) < 0 {
        assert FailsAfter(w, call, taken, syncs, 0);
      } else {
        WhenUndelivered(w, call, taken + 1, syncs + 1, budget - 1);
        forall k | 0 <= k < budget
          ensures FailsAfter(w, call, taken, syncs, k) <==> k > 0 && FailsAfter(w, call, taken + 1, syncs + 1, k - 1)
        {
          assert k > 0 ==> taken + k == taken + 1 + (k - 1) && syncs + k == syncs + 1 + (k - 1);
        }
        var next, nextSync := taken + 1, syncs + 1;
        if exists k :: 0 <= k < budget - 1 && FailsAfter(w, call, next, nextSync, k) {
          var k :| 0 <= k < budget - 1 && FailsAfter(w, call, next, nextSync, k);
          assert FailsAfter(w, call, taken, syncs, k + 1);
        }
      }
    }
  }

  /** The counts call `i` of a run starts from, and whether it can deliver from there. */
  ghost predicate Delivers(w: World, calls: seq<Call>, i: nat)
    requires i < |calls|
  {
    var before := RunCalls(w, calls[..i]);
    && !Handled(w, calls[i], before.taken, before.syncs, 8)
    && forall k :: 0 <= k < 8 ==> !FailsAfter(w, calls[i], before.taken, before.syncs, k)
  }

  ghost predicate AllDeliver(w: World, calls: seq<Call>) {
    forall i :: 0 <= i < |calls| ==> Delivers(w, calls, i)
  }

  lemma AllDeliverStep(w: World, calls: seq<Call>)
    requires calls != []
    ensures AllDeliver(w, calls) <==> AllDeliver(w, calls[..|calls| - 1]) && Delivers(w, calls, |calls| - 1)
  {
    hide Delivers;
    var n := |calls| - 1;
    forall i | 0 <= i < n
      ensures Delivers(w, calls, i) == Delivers(w, calls[..n], i)
    {
      DeliversEarlier(w, calls, n, i);
    }
  }

  /** A run is without undelivered calls exactly when none of its calls meets eight host events or a failed sync. */
  lemma {:induction false} AllDeliverExactly(w: World, calls: seq<Call>)
    ensures RunCalls(w, calls).undelivered == 0 <==> AllDeliver(w, calls)
  {
    hide RunCalls, CallOutcome, Delivers, AllDeliver;
    if calls == [] {
      NoCalls(w);
    } else {
      UndeliveredStep(w, calls);
      AllDeliverStep(w, calls);
      DeliversWhen(w, calls, |calls| - 1);
      AllDeliverExactly(w, calls[..|calls| - 1]);
    }
  }

  lemma NoCalls(w: World)
    ensures RunCalls(w, []).undelivered == 0 && AllDeliver(w, [])
  {}

  lemma UndeliveredStep(w: World, calls: seq<Call>)
    requires calls != []
    ensures var before, call := RunCalls(w, calls[..|calls| - 1]), calls[|calls| - 1];
      RunCalls(w, calls).undelivered ==
      before.undelivered + if CallOutcome(w, call, before).ending == Delivered then 0 else 1
  {
    hide CallOutcome, Made, ResultOf;
  }

  lemma DeliversEarlier(w: World, calls: seq<Call>, n: nat, i: nat)
    requires i < n <= |calls|
    ensures Delivers(w, calls, i) == Delivers(w, calls[..n], i)
  {
    hide RunCalls, Handled, FailsAfter;
    assert calls[..n][..i] == calls[..i];
  }

  lemma DeliversWhen(w: World, calls: seq<Call>, i: nat)
    requires i < |calls|
    ensures Delivers(w, calls, i) <==> CallOutcome(w, calls[i], RunCalls(w, calls[..i])).ending == Delivered
  {
    hide RunCalls, Handled, FailsAfter, Transfer;
    var before := RunCalls(w, calls[..i]);
    WhenUndelivered(w, calls[i], before.taken, before.syncs, MAX_HOST_EVENTS);
  }

  /**
   The results handed out are the device's with the host events removed, in order,
   exactly when no call meets a failed sync or eight host events in a row.
   */
  lemma ShimIsAFilter(w: World, calls: seq<Call>)
    ensures RunCalls(w, calls).results == Passed(RunCalls(w, calls).made) <==> AllDeliver(w, calls)
  {
    hide AllDeliver;
    AllDeliverExactly(w, calls);
    EachEventAnsweredOnce(w, calls);
    if RunCalls(w, calls).undelivered == 0 {
      AllDelivered(w, calls);
    }
  }
}
