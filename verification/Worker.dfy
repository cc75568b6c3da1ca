/**
 The HID worker (`worker.rs`): the packet loop with its drain mode, and the handle
 through which the thread is joined. What the endpoint, the command handler, the
 cancel flag and the clock do is a script; the theorems hold for every script.
 */
module Worker {
  import opened Wrappers

  /** A 64-byte report; nothing here depends on its contents or length. */
  type Packet = seq<bv8>

  // ----- run_loop -----

  datatype WorkerError = ReadFailed(code: nat) | WriteFailed(code: nat)

  datatype Read = Got(packet: Packet) | Nothing | ReadError(code: nat)

  datatype Handling = Responses(batch: seq<Packet>) | HandlerError

  datatype Writing = AllAccepted | RefusedAt(index: nat, code: nat)

  /** What one iteration of the loop observes. */
  datatype Turn = Turn(cancelled: bool, cleanupDue: bool, read: Read, handling: Handling, writing: Writing)

  datatype Event = Cleanup | Handle(packet: Packet) | Write(packet: Packet) | Refusal(packet: Packet) | Hook

  datatype Outcome = StillRunning | Stopped | Failed(error: WorkerError)

  /** The response packets of a turn, in order. */
  function Batch(t: Turn): seq<Packet> {
    if t.read.Got? && t.handling.Responses? then t.handling.batch else []
  }

  predicate WriteRefused(t: Turn) {
    t.writing.RefusedAt? && t.writing.index < |Batch(t)|
  }

  /** The response packets of a turn that are accepted by the endpoint. */
  function Sent(t: Turn): (s: seq<Packet>)
    ensures |s| <= |Batch(t)|
  {
    if WriteRefused(t) then Batch(t)[..t.writing.index] else Batch(t)
  }

  function WriteEvents(ps: seq<Packet>): seq<Event> {
    if ps == [] then [] else WriteEvents(ps[..|ps| - 1]) + [Write(ps[|ps| - 1])]
  }

  function Opening(t: Turn): seq<Event> {
    (if t.cleanupDue then [Cleanup] else []) + (if t.read.Got? then [Handle(t.read.packet)] else [])
  }

  function Closing(t: Turn): seq<Event> {
    if WriteRefused(t) then [Refusal(Batch(t)[t.writing.index])]
    else if Batch(t) != [] then [Hook] else []
  }

  function TurnEvents(t: Turn): seq<Event> {
    Opening(t) + WriteEvents(Sent(t)) + Closing(t)
  }

  /** How a turn ends the loop, if it does. */
  function Ending(t: Turn, draining: bool): Outcome {
    match t.read
    case ReadError(code) => if draining then Stopped else Failed(ReadFailed(code))
    case Nothing => if draining then Stopped else StillRunning
    case Got(_) =>
      if t.handling.HandlerError? then if draining then Stopped else StillRunning
      else if WriteRefused(t) then if draining then Stopped else Failed(WriteFailed(t.writing.code))
      else StillRunning
  }

  predicate Draining(script: seq<Turn>) { exists i :: 0 <= i < |script| && script[i].cancelled }

  /** What the turns of a script do, one after the other. */
  function Log(script: seq<Turn>): seq<Event> {
    if script == [] then []
    else Log(script[..|script| - 1]) + TurnEvents(script[|script| - 1])
  }

  datatype Run = Run(outcome: Outcome, turns: nat, log: seq<Event>)

  /** How turn `i` of a script ends the loop, given the cancellations seen so far. */
  ghost function EndingAt(script: seq<Turn>, i: nat): Outcome
    requires i < |script|
  {
    Ending(script[i], Draining(script[..i + 1]))
  }

  /**
   The run of the loop on a script: it takes turns up to the first one that
   ends it, and a graceful stop is followed by one more cleanup.
   */
  ghost predicate IsRun(script: seq<Turn>, r: Run) {
    && r.turns <= |script|
    && (forall i :: 0 <= i < r.turns - 1 ==> EndingAt(script, i).StillRunning?)
    && (if r.outcome.StillRunning? then r.turns == |script| else r.turns > 0)
    && (r.turns > 0 ==> EndingAt(script, r.turns - 1) == r.outcome)
    && r.log == Log(script[..r.turns]) + (if r.outcome.Stopped? then [Cleanup] else [])
  }

  /** `run_loop`. */
  method RunLoop(script: seq<Turn>) returns (r: Run)
    ensures IsRun(script, r)
  {
    hide Ending, TurnEvents;
    var draining, turns, log := false, 0, [];
    while turns < |script|
      invariant turns <= |script|
      invariant draining == Draining(script[..turns])
      invariant forall i :: 0 <= i < turns ==> EndingAt(script, i).StillRunning?
      invariant log == Log(script[..turns])
    {
      var t := script[turns];
      DrainingNext(script[..turns], t);
      assert script[..turns + 1] == script[..turns] + [t];
      if t.cancelled && !draining {
        draining := true;
      }
      var events, ending := TakeTurn(t, draining);
      assert ending == EndingAt(script, turns);
      turns := turns + 1;
      assert script[..turns][..turns - 1] == script[..turns - 1];
      log := log + events;
      if ending.Failed? {
        return Run(ending, turns, log);
      }
      if ending.Stopped? {
        return Run(Stopped, turns, log + [Cleanup]);
      }
    }
    return Run(StillRunning, turns, log);
  }

  lemma DrainingNext(script: seq<Turn>, t: Turn)
    ensures Draining(script + [t]) <==> Draining(script) || t.cancelled
  {
    if Draining(script) {
      var i :| 0 <= i < |script| && script[i].cancelled;
      assert (script + [t])[i].cancelled;
    }
    if t.cancelled {
      assert (script + [t])[|script|].cancelled;
    }
  }

  /** The body of the loop after the cancel flag has been looked at. */
  method TakeTurn(t: Turn, draining: bool) returns (events: seq<Event>, ending: Outcome)
    ensures events == TurnEvents(t)
    ensures ending == Ending(t, draining)
  {
    events := if t.cleanupDue then [Cleanup] else [];
    match t.read {
      case Got(packet) =>
        events := events + [Handle(packet)];
        match t.handling {
          case Responses(batch) =>
            if batch == [] {
              return events, StillRunning;
            }
            var accepted, sent := SendBatch(batch, t.writing);
            events := events + sent;
            if !accepted {
              return events, if draining then Stopped else Failed(WriteFailed(t.writing.code));
            }
            return events, StillRunning;
          case HandlerError =>
            return events, if draining then Stopped else StillRunning;
        }
      case Nothing =>
        return events, if draining then Stopped else StillRunning;
      case ReadError(code) =>
        return events, if draining then Stopped else Failed(ReadFailed(code));
    }
  }

  /** Writes a non-empty batch packet by packet, then calls the hook. */
  method SendBatch(batch: seq<Packet>, writing: Writing) returns (accepted: bool, events: seq<Event>)
    requires batch != []
    ensures accepted <==> !(writing.RefusedAt? && writing.index < |batch|)
    ensures accepted ==> events == WriteEvents(batch) + [Hook]
    ensures !accepted ==> events == WriteEvents(batch[..writing.index]) + [Refusal(batch[writing.index])]
  {
    events := [];
    for i := 0 to |batch|
      invariant events == WriteEvents(batch[..i])
      invariant writing.RefusedAt? ==> i <= writing.index
    {
      if writing.RefusedAt? && writing.index == i {
        return false, events + [Refusal(batch[i])];
      }
      assert batch[..i + 1][..i] == batch[..i];
      events := events + [Write(batch[i])];
    }
    assert batch[..|batch|] == batch;
    return true, events + [Hook];
  }

  // ----- What every run does -----

  /** The packets read, in order. */
  function PacketsRead(script: seq<Turn>): seq<Packet> {
    if script == [] then []
    else PacketsRead(script[..|script| - 1]) + PacketOf(script[|script| - 1])
  }

  function PacketOf(t: Turn): seq<Packet> { if t.read.Got? then [t.read.packet] else [] }

  function Batches(script: seq<Turn>): seq<Packet> {
    if script == [] then [] else Batches(script[..|script| - 1]) + Batch(script[|script| - 1])
  }

  /** Turns with a response all of whose packets were accepted. */
  function Answered(script: seq<Turn>): nat {
    if script == [] then 0
    else Answered(script[..|script| - 1]) + IsAnswered(script[|script| - 1])
  }

  function IsAnswered(t: Turn): nat { if Batch(t) != [] && !WriteRefused(t) then 1 else 0 }

  function CleanupsDue(script: seq<Turn>): nat {
    if script == [] then 0
    else CleanupsDue(script[..|script| - 1]) + (if script[|script| - 1].cleanupDue then 1 else 0)
  }

  function Handled(log: seq<Event>): seq<Packet> {
    if log == [] then [] else Handled(log[..|log| - 1]) + HandledPacket(log[|log| - 1])
  }

  function HandledPacket(e: Event): seq<Packet> { if e.Handle? then [e.packet] else [] }

  function Written(log: seq<Event>): seq<Packet> {
    if log == [] then [] else Written(log[..|log| - 1]) + WrittenPacket(log[|log| - 1])
  }

  function WrittenPacket(e: Event): seq<Packet> { if e.Write? then [e.packet] else [] }

  function Count(log: seq<Event>, e: Event): nat { multiset(log)[e] }

  lemma Assoc<T>(a: seq<T>, b: seq<T>, c: seq<T>)
    ensures a + b + c == a + (b + c)
  {}

  lemma {:induction false} HandledAppend(a: seq<Event>, b: seq<Event>)
    ensures Handled(a + b) == Handled(a) + Handled(b)
  {
    if b == [] {
      assert a + b == a;
    } else {
      var init, last := b[..|b| - 1], b[|b| - 1];
      HandledAppend(a, init);
      assert (a + b)[..|a + b| - 1] == a + init;
      Assoc(Handled(a), Handled(init), HandledPacket(last));
    }
  }

  lemma {:induction false} WrittenAppend(a: seq<Event>, b: seq<Event>)
    ensures Written(a + b) == Written(a) + Written(b)
  {
    if b == [] {
      assert a + b == a;
    } else {
      var init, last := b[..|b| - 1], b[|b| - 1];
      WrittenAppend(a, init);
      assert (a + b)[..|a + b| - 1] == a + init;
      Assoc(Written(a), Written(init), WrittenPacket(last));
    }
  }

  lemma {:induction false} WriteEventsHandled(ps: seq<Packet>)
    ensures Handled(WriteEvents(ps)) == []
  {
    if ps != [] {
      WriteEventsHandled(ps[..|ps| - 1]);
      assert WriteEvents(ps)[..|WriteEvents(ps)| - 1] == WriteEvents(ps[..|ps| - 1]);
    }
  }

  lemma WrittenNext(log: seq<Event>, e: Event)
    ensures Written(log + [e]) == Written(log) + WrittenPacket(e)
  {}

  lemma {:induction false} WriteEventsWritten(ps: seq<Packet>)
    ensures Written(WriteEvents(ps)) == ps
  {
    if ps == [] {
      assert Written([]) == [];
    } else {
      hide Written;
      var init, last := ps[..|ps| - 1], ps[|ps| - 1];
      WriteEventsWritten(init);
      assert WriteEvents(ps) == WriteEvents(init) + [Write(last)];
      WrittenNext(WriteEvents(init), Write(last));
      assert ps == init + [last];
    }
  }

  lemma {:induction false} WriteEventsCount(ps: seq<Packet>)
    ensures Count(WriteEvents(ps), Hook) == 0 && Count(WriteEvents(ps), Cleanup) == 0
  {
    if ps != [] {
      WriteEventsCount(ps[..|ps| - 1]);
    }
  }

  lemma OpeningProjects(t: Turn)
    ensures Handled(Opening(t)) == PacketOf(t) && Written(Opening(t)) == []
  {
    var a: seq<Event> := if t.cleanupDue then [Cleanup] else [];
    var b: seq<Event> := if t.read.Got? then [Handle(t.read.packet)] else [];
    HandledAppend(a, b);
    WrittenAppend(a, b);
  }

  lemma ClosingProjects(t: Turn)
    ensures Handled(Closing(t)) == [] && Written(Closing(t)) == []
  {}

  lemma TurnProjects(t: Turn)
    ensures Handled(TurnEvents(t)) == PacketOf(t) && Written(TurnEvents(t)) == Sent(t)
  {
    hide Opening, Closing, WriteEvents, Handled, Written, Sent;
    OpeningProjects(t);
    ClosingProjects(t);
    WriteEventsHandled(Sent(t));
    WriteEventsWritten(Sent(t));
    HandledAppend(Opening(t), WriteEvents(Sent(t)));
    HandledAppend(Opening(t) + WriteEvents(Sent(t)), Closing(t));
    WrittenAppend(Opening(t), WriteEvents(Sent(t)));
    WrittenAppend(Opening(t) + WriteEvents(Sent(t)), Closing(t));
  }

  lemma TurnCounts(t: Turn)
    ensures Count(TurnEvents(t), Hook) == IsAnswered(t)
    ensures Count(TurnEvents(t), Cleanup) == if t.cleanupDue then 1 else 0
  {
    hide WriteEvents, Sent, Batch, WriteRefused;
    WriteEventsCount(Sent(t));
  }

  /** Every packet read is handed to the handler once, in order. */
  lemma {:induction false} LogHandles(script: seq<Turn>)
    ensures Handled(Log(script)) == PacketsRead(script)
  {
    if script != [] {
      hide TurnEvents, Handled, PacketOf;
      LogHandles(script[..|script| - 1]);
      TurnProjects(script[|script| - 1]);
      HandledAppend(Log(script[..|script| - 1]), TurnEvents(script[|script| - 1]));
    } else {
      assert Handled([]) == [];
    }
  }

  /** Turns with no refused write send exactly their batches. */
  lemma {:induction false} LogWrites(script: seq<Turn>)
    requires forall i :: 0 <= i < |script| ==> !WriteRefused(script[i])
    ensures Written(Log(script)) == Batches(script)
  {
    if script != [] {
      hide TurnEvents, Written, Batch;
      LogWrites(script[..|script| - 1]);
      TurnProjects(script[|script| - 1]);
      WrittenAppend(Log(script[..|script| - 1]), TurnEvents(script[|script| - 1]));
    } else {
      assert Written([]) == [];
    }
  }

  lemma {:induction false} LogCounts(script: seq<Turn>)
    ensures Count(Log(script), Hook) == Answered(script)
    ensures Count(Log(script), Cleanup) == CleanupsDue(script)
  {
    if script != [] {
      hide TurnEvents, IsAnswered;
      LogCounts(script[..|script| - 1]);
      TurnCounts(script[|script| - 1]);
    }
  }

  /** The handler gets each packet read exactly once, in the order they were read. */
  lemma HandlerSeesEachPacketOnce(script: seq<Turn>, r: Run)
    requires IsRun(script, r)
    ensures Handled(r.log) == PacketsRead(script[..r.turns])
  {
    LogHandles(script[..r.turns]);
    HandledAppend(Log(script[..r.turns]), if r.outcome.Stopped? then [Cleanup] else []);
  }

  /** The hook runs once per answered turn, the cleanup once per due turn and once more on a graceful stop. */
  lemma HooksAndCleanupsCounted(script: seq<Turn>, r: Run)
    requires IsRun(script, r)
    ensures Count(r.log, Hook) == Answered(script[..r.turns])
    ensures Count(r.log, Cleanup) == CleanupsDue(script[..r.turns]) + (if r.outcome.Stopped? then 1 else 0)
    ensures r.outcome.Stopped? ==> r.log != [] && r.log[|r.log| - 1] == Cleanup
  {
    hide Log, Answered, CleanupsDue, EndingAt, Count;
    LogCounts(script[..r.turns]);
    CountCleanup(Log(script[..r.turns]));
  }

  lemma CountCleanup(log: seq<Event>)
    ensures Count(log + [Cleanup], Hook) == Count(log, Hook)
    ensures Count(log + [Cleanup], Cleanup) == Count(log, Cleanup) + 1
    ensures log + [] == log
  {}

  lemma ContinuingTurnsAreSent(script: seq<Turn>, r: Run, i: nat)
    requires IsRun(script, r) && i + 1 < r.turns
    ensures !WriteRefused(script[i])
  {
    assert EndingAt(script, i).StillRunning?;
  }

  /**
   The packets written are the batches of the turns taken, in order, except
   that a refused write cuts the last batch to a proper prefix and ends the run.
   */
  lemma WrittenAreTheBatches(script: seq<Turn>, r: Run)
    requires IsRun(script, r) && r.turns > 0
    ensures var last := script[r.turns - 1];
      && Written(r.log) == Batches(script[..r.turns - 1]) + Sent(last)
      && (if WriteRefused(last) then Sent(last) < Batch(last) && !r.outcome.StillRunning?
          else Written(r.log) == Batches(script[..r.turns]))
  {
    hide TurnEvents, Written, Batches, EndingAt, Sent, Batch;
    var taken, init, last := script[..r.turns], script[..r.turns - 1], script[r.turns - 1];
    forall i | 0 <= i < |init|
      ensures !WriteRefused(init[i])
    {
      ContinuingTurnsAreSent(script, r, i);
    }
    LastBatch(init, last);
    assert taken == init + [last];
    CleanupNotWritten(Log(taken), r.outcome.Stopped?);
    LastTurnSent(script, r);
  }

  lemma LastBatch(init: seq<Turn>, last: Turn)
    requires forall i :: 0 <= i < |init| ==> !WriteRefused(init[i])
    ensures Written(Log(init + [last])) == Batches(init) + Sent(last)
    ensures Batches(init + [last]) == Batches(init) + Batch(last)
  {
    var taken := init + [last];
    assert taken[..|taken| - 1] == init;
    assert Log(taken) == Log(init) + TurnEvents(last);
    hide TurnEvents, Written, Sent, Batch;
    LogWrites(init);
    TurnProjects(last);
    WrittenAppend(Log(init), TurnEvents(last));
  }

  lemma CleanupNotWritten(log: seq<Event>, stopped: bool)
    ensures Written(log + if stopped then [Cleanup] else []) == Written(log)
  {
    var tail: seq<Event> := if stopped then [Cleanup] else [];
    WrittenAppend(log, tail);
    assert Written(tail) == [];
  }

  /** A refused write ends the run with part of its batch; otherwise the whole batch was sent. */
  lemma LastTurnSent(script: seq<Turn>, r: Run)
    requires IsRun(script, r) && r.turns > 0
    ensures var last := script[r.turns - 1];
      if WriteRefused(last) then Sent(last) < Batch(last) && !r.outcome.StillRunning? else Sent(last) == Batch(last)
  {}

  /** The error is what the turn's read or write reported. */
  predicate Explains(t: Turn, error: WorkerError) {
    match error
    case ReadFailed(code) => t.read == ReadError(code)
    case WriteFailed(code) => WriteRefused(t) && t.writing.code == code
  }

  /**
   The loop ends with `Ok` exactly when it ends after the cancel flag was seen;
   otherwise it ends with the error that the last turn's read or write reported.
   */
  lemma StopsCleanlyExactlyWhenDraining(script: seq<Turn>, r: Run)
    requires IsRun(script, r)
    ensures r.outcome.Stopped? <==> !r.outcome.StillRunning? && Draining(script[..r.turns])
    ensures r.outcome.Failed? ==> Explains(script[r.turns - 1], r.outcome.error)
  {
    hide Log, TurnEvents;
    if r.turns > 0 {
      assert script[..r.turns - 1 + 1] == script[..r.turns];
    }
  }

  /**
   After cancellation the loop ends no later than the first read that brings no
   packet, so any finite inbound queue is drained and the worker stops.
   */
  lemma DrainTerminates(script: seq<Turn>, r: Run, c: nat, q: nat)
    requires IsRun(script, r) && c <= q < |script| && script[c].cancelled && !script[q].read.Got?
    ensures r.turns <= q + 1 && !r.outcome.StillRunning?
  {
    hide Log, TurnEvents;
    QuietTurnEnds(script, c, q);
  }

  /** Once cancelled, a turn that reads no packet ends the loop. */
  lemma QuietTurnEnds(script: seq<Turn>, c: nat, q: nat)
    requires c <= q < |script| && script[c].cancelled && !script[q].read.Got?
    ensures !EndingAt(script, q).StillRunning?
  {
    assert script[..q + 1][c].cancelled;
  }

  /** A read that failed, a write that was refused, or, when draining, no packet or a handler that failed. */
  predicate EndsLoop(t: Turn, draining: bool) {
    || t.read.ReadError?
    || (draining && t.read.Nothing?)
    || (draining && t.read.Got? && t.handling.HandlerError?)
    || WriteRefused(t)
  }

  /** By turn `i` the cancel flag has been seen. */
  predicate CancelledBy(script: seq<Turn>, i: nat)
    requires i < |script|
  {
    exists c :: 0 <= c <= i && script[c].cancelled
  }

  lemma EndingExact(script: seq<Turn>, i: nat)
    requires i < |script|
    ensures EndingAt(script, i).StillRunning? <==> !EndsLoop(script[i], CancelledBy(script, i))
    ensures EndingAt(script, i).Stopped? <==> EndsLoop(script[i], CancelledBy(script, i)) && CancelledBy(script, i)
  {
    assert Draining(script[..i + 1]) <==> CancelledBy(script, i) by {
      assert forall c :: 0 <= c <= i ==> script[..i + 1][c] == script[c];
    }
  }

  /**
   A run ends at the first turn whose read failed, whose write was refused or, once
   cancelled, that read no packet or whose handler failed; cleanly if cancelled by
   then. It goes on exactly as long as there is no such turn.
   */
  lemma RunEndsExactly(script: seq<Turn>, r: Run)
    requires IsRun(script, r)
    ensures r.outcome.StillRunning? <==> forall i :: 0 <= i < |script| ==> !EndsLoop(script[i], CancelledBy(script, i))
    ensures !r.outcome.StillRunning? ==>
      && 0 < r.turns <= |script| && EndsLoop(script[r.turns - 1], CancelledBy(script, r.turns - 1))
      && (r.outcome.Stopped? <==> CancelledBy(script, r.turns - 1))
      && forall i :: 0 <= i < r.turns - 1 ==> !EndsLoop(script[i], CancelledBy(script, i))
  {
    hide Log, EndingAt, EndsLoop, CancelledBy;
    forall i | 0 <= i < |script|
      ensures EndingAt(script, i).StillRunning? <==> !EndsLoop(script[i], CancelledBy(script, i))
      ensures EndingAt(script, i).Stopped? <==> EndsLoop(script[i], CancelledBy(script, i)) && CancelledBy(script, i)
    {
      EndingExact(script, i);
    }
  }

  /** The turn reads a packet, and the handler's responses to it are all written. */
  predicate Serves(t: Turn) { t.read.Got? && t.handling.Responses? && !WriteRefused(t) }

  /**
   Draining drains: turns that serve a packet each, cancelled or not, are all taken,
   and the loop stops at the first read after them that brings none.
   */
  lemma DrainServesTheQueue(script: seq<Turn>, r: Run, q: nat)
    requires IsRun(script, r) && q < |script| && CancelledBy(script, q) && script[q].read.Nothing?
    requires forall i :: 0 <= i < q ==> Serves(script[i])
    ensures r.turns == q + 1 && r.outcome.Stopped?
    ensures Handled(r.log) == PacketsRead(script[..q]) && Written(r.log) == Batches(script[..q])
  {
    hide IsRun, CancelledBy, Serves, Handled, Written, PacketsRead, Batches, Sent;
    QueueIsTaken(script, r, q);
    HandlerSeesEachPacketOnce(script, r);
    WrittenAreTheBatches(script, r);
    QuietAddsNothing(script, q);
    assert Batches(script[..q]) + [] == Batches(script[..q]);
  }

  lemma QueueIsTaken(script: seq<Turn>, r: Run, q: nat)
    requires IsRun(script, r) && q < |script| && CancelledBy(script, q) && script[q].read.Nothing?
    requires forall i :: 0 <= i < q ==> Serves(script[i])
    ensures r.turns == q + 1 && r.outcome.Stopped?
  {
    RunEndsExactly(script, r);
    hide IsRun, CancelledBy;
    assert EndsLoop(script[q], CancelledBy(script, q));
    assert forall i :: 0 <= i < q ==> !EndsLoop(script[i], CancelledBy(script, i));
  }

  lemma QuietAddsNothing(script: seq<Turn>, q: nat)
    requires q < |script| && script[q].read.Nothing?
    ensures PacketsRead(script[..q + 1]) == PacketsRead(script[..q]) && Sent(script[q]) == []
  {
    assert script[..q + 1][..q] == script[..q];
  }

  /** Cleanup, handling, writing, and then the hook or the refusal. */
  function Rank(e: Event): nat {
    match e
    case Cleanup => 0
    case Handle(_) => 1
    case Write(_) => 2
    case Refusal(_) => 3
    case Hook => 3
  }

  lemma {:induction false} WriteEventsRank(ps: seq<Packet>)
    ensures forall i :: 0 <= i < |WriteEvents(ps)| ==> Rank(WriteEvents(ps)[i]) == 2
  {
    if ps != [] {
      WriteEventsRank(ps[..|ps| - 1]);
    }
  }

  /** The events of a turn come in this order; in particular the hook runs after the last write. */
  lemma TurnOrder(t: Turn)
    ensures forall i, j :: 0 <= i < j < |TurnEvents(t)| ==> Rank(TurnEvents(t)[i]) <= Rank(TurnEvents(t)[j])
  {
    WriteEventsRank(Sent(t));
    hide WriteEvents, Sent, Batch, WriteRefused;
  }

  /** A script has exactly one run. */
  lemma RunIsUnique(script: seq<Turn>, r: Run, s: Run)
    requires IsRun(script, r) && IsRun(script, s)
    ensures r == s
  {}

  // ----- WorkerHandle -----

  datatype WorkerOutcome = Clean | Error(error: WorkerError) | Panicked

  datatype JoinOutcome = Finished(outcome: WorkerOutcome) | TimedOut

  /** A channel: the message waiting in it, and what its sender, while it lives, will send. */
  datatype Channel = Channel(message: Option<WorkerOutcome>, sender: Option<WorkerOutcome>)

  /** How far the waiting thread has got when the handle looks: it joins, sends, and then exits. */
  datatype Progress = Waiting | HasSent | HasExited

  datatype Reception = Received(outcome: WorkerOutcome) | Empty | Disconnected

  function Advance(c: Channel, p: Progress): Channel {
    if c.sender.None? || p.Waiting? then c
    else Channel(if c.message.Some? then c.message else c.sender, if p.HasSent? then c.sender else None)
  }

  /** `recv_timeout` and `try_recv`. */
  function Receive(c: Channel): Reception {
    if c.message.Some? then Received(c.message.value) else if c.sender.Some? then Empty else Disconnected
  }

  /** What a handle stands for: a thread, the channel its outcome will come from, or nothing. */
  datatype Owed = Nobody | Thread(outcome: WorkerOutcome) | Awaited(channel: Channel)

  function ChannelOf(outcome: WorkerOutcome): Channel { Channel(None, Some(outcome)) }

  /** The state and the report after looking at a channel. */
  function AfterLooking(c: Channel): (Owed, Option<WorkerOutcome>) {
    match Receive(c)
    case Received(outcome) => (Nobody, Some(outcome))
    case Empty => (Awaited(c), None)
    case Disconnected => (Nobody, Some(Clean))
  }

  function AfterJoinTimeout(owed: Owed, p: Progress): (Owed, Option<WorkerOutcome>) {
    match owed
    case Nobody => (Nobody, Some(Clean))
    case Thread(outcome) => AfterLooking(Advance(ChannelOf(outcome), p))
    case Awaited(c) => AfterLooking(Advance(c, p))
  }

  function AfterTryJoin(owed: Owed, finished: bool, p: Progress): (Owed, Option<WorkerOutcome>) {
    if owed.Thread? && !finished then (owed, None) else AfterJoinTimeout(owed, p)
  }

  /** What `join` reports: it waits for the message, or for the sender to go away. */
  function JoinReports(owed: Owed): WorkerOutcome {
    match owed
    case Nobody => Clean
    case Thread(outcome) => outcome
    case Awaited(c) =>
      if c.message.Some? then c.message.value else if c.sender.Some? then c.sender.value else Clean
  }

  class WorkerHandle {
    var cancelled: bool
    var thread: Option<WorkerOutcome>
    var pendingRx: Option<Channel>

    /** At most one of the thread and the receiver is set. */
    predicate Valid()
      reads this
    {
      thread.None? || pendingRx.None?
    }

    function Owes(): Owed
      reads this
    {
      if pendingRx.Some? then Awaited(pendingRx.value)
      else if thread.Some? then Thread(thread.value)
      else Nobody
    }

    constructor (outcome: WorkerOutcome)
      ensures Valid() && !cancelled && Owes() == Thread(outcome)
    {
      cancelled, thread, pendingRx := false, Some(outcome), None;
    }

    /** `join_timeout`; `p` is how far the waiting thread gets before the timeout. */
    method JoinTimeout(p: Progress) returns (r: JoinOutcome)
      requires Valid()
      modifies this
      ensures Valid() && cancelled == old(cancelled)
      ensures (Owes(), if r.Finished? then Some(r.outcome) else None) == AfterJoinTimeout(old(Owes()), p)
    {
      if pendingRx.Some? {
        var rx := Advance(pendingRx.value, p);
        pendingRx := None;
        match Receive(rx) {
          case Received(outcome) =>
            return Finished(outcome);
          case Empty =>
            pendingRx := Some(rx);
            return TimedOut;
          case Disconnected =>
            return Finished(Clean);
        }
      }
      if thread.None? {
        return Finished(Clean);
      }
      var rx := Advance(ChannelOf(thread.value), p);
      thread := None;
      match Receive(rx) {
        case Received(outcome) =>
          return Finished(outcome);
        case Empty =>
          pendingRx := Some(rx);
          return TimedOut;
        case Disconnected =>
          return Finished(Clean);
      }
    }

    /** `try_join`; `finished` is the worker thread's state, `p` the waiting thread's progress. */
    method TryJoin(finished: bool, p: Progress) returns (r: Option<WorkerOutcome>)
      requires Valid()
      modifies this
      ensures Valid() && cancelled == old(cancelled)
      ensures (Owes(), r) == AfterTryJoin(old(Owes()), finished, p)
    {
      if pendingRx.Some? {
        var rx := Advance(pendingRx.value, p);
        pendingRx := None;
        match Receive(rx) {
          case Received(outcome) =>
            return Some(outcome);
          case Empty =>
            pendingRx := Some(rx);
            return None;
          case Disconnected =>
            return Some(Clean);
        }
      }
      if thread.None? {
        return Some(Clean);
      }
      var outcome := thread.value;
      thread := None;
      if !finished {
        thread := Some(outcome);
        return None;
      }
      var rx := Advance(ChannelOf(outcome), p);
      match Receive(rx) {
        case Received(received) =>
          return Some(received);
        case Empty =>
          pendingRx := Some(rx);
          return None;
        case Disconnected =>
          return Some(Clean);
      }
    }

    /** `join`, which also drops the handle. */
    method Join() returns (r: WorkerOutcome)
      requires Valid()
      modifies this
      ensures Valid() && cancelled && Owes() == Nobody
      ensures r == JoinReports(old(Owes()))
    {
      if pendingRx.Some? {
        var reception := Receive(Advance(pendingRx.value, HasExited));
        r := if reception.Received? then reception.outcome else Clean;
        pendingRx := None;
      } else if thread.None? {
        r := Clean;
      } else {
        r := thread.value;
        thread := None;
      }
      Drop();
    }

    /** `drop`: requests cancellation and waits for whatever is still owed. */
    method Drop()
      requires Valid()
      modifies this
      ensures Valid() && cancelled && thread.None? && pendingRx.None?
    {
      cancelled := true;
      if thread.Some? {
        thread := None;
      }
      if pendingRx.Some? {
        pendingRx := None;
      }
    }
  }

  // ----- What is reported -----

  /** The handle still owes exactly this outcome. */
  predicate OwesTruth(owed: Owed, truth: WorkerOutcome) {
    match owed
    case Nobody => false
    case Thread(outcome) => outcome == truth
    case Awaited(c) => c.message.None? && c.sender == Some(truth)
  }

  datatype Attempt = WithTimeout(p: Progress) | Now(finished: bool, p: Progress)

  function AfterAttempt(owed: Owed, a: Attempt): (Owed, Option<WorkerOutcome>) {
    match a
    case WithTimeout(p) => AfterJoinTimeout(owed, p)
    case Now(finished, p) => AfterTryJoin(owed, finished, p)
  }

  /** The waiting thread has sent by the time of the attempt; `try_join` starts it only for a finished thread. */
  predicate Arrives(owed: Owed, a: Attempt) {
    match a
    case WithTimeout(p) => p != Waiting
    case Now(finished, p) => p != Waiting && (owed.Awaited? || finished)
  }

  /**
   An attempt reports the truth and settles the debt exactly when it has arrived, and
   otherwise leaves it owed; it never loses it. A running thread is not taken from
   the handle by `try_join`.
   */
  lemma AttemptKeepsTruth(owed: Owed, a: Attempt, truth: WorkerOutcome)
    requires OwesTruth(owed, truth)
    ensures var (next, report) := AfterAttempt(owed, a);
      if Arrives(owed, a) then report == Some(truth) && next == Nobody
      else report == None && OwesTruth(next, truth)
    ensures a.Now? && !a.finished && owed.Thread? ==> AfterAttempt(owed, a).0 == owed
    ensures JoinReports(owed) == truth
  {}

  /** A handle that owes nothing reports Clean. */
  lemma NothingOwedIsClean(a: Attempt)
    ensures AfterAttempt(Nobody, a) == (Nobody, Some(Clean)) && JoinReports(Nobody) == Clean
  {}

  /** A handle finds its channel disconnected exactly when nothing was sent and the sender is gone. */
  lemma DisconnectedExactly(c: Channel, p: Progress)
    ensures Receive(Advance(c, p)).Disconnected? <==> c == Channel(None, None)
    ensures Receive(Advance(c, p)).Disconnected? ==> AfterJoinTimeout(Awaited(c), p) == (Nobody, Some(Clean))
  {}

  /** Any series of attempts on a handle, then `join`: the outcomes it reports, in order. */
  method JoinAfter(h: WorkerHandle, attempts: seq<Attempt>, ghost truth: WorkerOutcome)
    returns (reports: seq<WorkerOutcome>)
    requires h.Valid() && OwesTruth(h.Owes(), truth)
    modifies h
    ensures h.Valid() && h.Owes() == Nobody && h.cancelled
    ensures reports != [] && reports[0] == truth
    ensures forall i :: 0 < i < |reports| ==> reports[i] == Clean
  {
    reports := [];
    for k := 0 to |attempts|
      invariant h.Valid()
      invariant if reports == [] then OwesTruth(h.Owes(), truth) else h.Owes() == Nobody
      invariant reports != [] ==> reports[0] == truth
      invariant forall i :: 0 < i < |reports| ==> reports[i] == Clean
    {
      if reports == [] {
        AttemptKeepsTruth(h.Owes(), attempts[k], truth);
      }
      match attempts[k] {
        case WithTimeout(p) =>
          var r := h.JoinTimeout(p);
          if r.Finished? {
            reports := reports + [r.outcome];
          }
        case Now(finished, p) =>
          var r := h.TryJoin(finished, p);
          if r.Some? {
            reports := reports + [r.value];
          }
      }
    }
    var last := h.Join();
    reports := reports + [last];
  }
}
