/**
 Lock acquisition by several daemons (`instance_lock.rs`). A daemon tries, without
 blocking, the lock files of its plan one by one and drops everything it holds
 when an attempt fails. Attempts and releases of different daemons interleave
 freely; a schedule fixes one interleaving.
 */
module Locks {
  import opened Bytes
  import opened Ordering
  import opened Paths

  /** A lock file name: the source hashes the canonical state path. */
  type Name = Text

  type Naming = Path -> Name

  // ----- Plans -----

  function SelfPath(p: Path): Path { p }

  /** `DaemonLocks::acquire`: the agent-state lock, then all backends in path order. */
  function DaemonPlan(agent: Path, backends: seq<Path>): (plan: seq<Path>)
    ensures |plan| == 1 + |backends|
  {
    [agent] + StableSort(backends, SelfPath, PathLess)
  }

  /** `InstanceLock::acquire`: a daemon without agents locks its one backend. */
  function SinglePlan(backend: Path): seq<Path> { [backend] }

  // ----- Daemons and steps -----

  datatype Status = Acquiring | Succeeded | Aborting(released: nat) | Exiting(released: nat)

  /** `reached` counts the locks of the plan this daemon has acquired so far. */
  datatype Daemon = Daemon(plan: seq<Path>, reached: nat, status: Status)

  datatype State = State(held: map<Name, nat>, daemons: seq<Daemon>)

  datatype Action = TryLock | Fault | Release | Exit

  type Event = (nat, Action)

  /** A failed attempt drops the acquired backends in order, then the agent-state lock. */
  function AbortOrder(d: Daemon): (order: seq<Path>)
    requires d.reached <= |d.plan|
    ensures |order| == d.reached
  {
    if d.reached == 0 then [] else d.plan[1..d.reached] + [d.plan[0]]
  }

  /** The locks a daemon holds. */
  function HeldPaths(d: Daemon): seq<Path>
    requires WellFormed(d)
  {
    match d.status
    case Acquiring => d.plan[..d.reached]
    case Succeeded => d.plan
    case Aborting(released) => AbortOrder(d)[released..]
    case Exiting(released) => d.plan[released..]
  }

  predicate WellFormed(d: Daemon) {
    && d.reached <= |d.plan|
    && match d.status
       case Acquiring => d.reached < |d.plan|
       case Succeeded => d.reached == |d.plan|
       case Aborting(released) => d.reached < |d.plan| && released <= d.reached
       case Exiting(released) => d.reached == |d.plan| && released <= d.reached
  }

  predicate Enabled(s: State, e: Event) {
    e.0 < |s.daemons| && WellFormed(s.daemons[e.0]) && CanAct(s.daemons[e.0], e.1)
  }

  predicate CanAct(d: Daemon, action: Action)
    requires WellFormed(d)
  {
    match action
    case TryLock => d.status == Acquiring
    case Fault => d.status == Acquiring
    case Release => (d.status.Aborting? || d.status.Exiting?) && HeldPaths(d) != []
    case Exit => d.status == Succeeded
  }

  /** One daemon's next move; an event that is not enabled changes nothing. */
  function Apply(s: State, e: Event, name: Naming): State {
    if !Enabled(s, e) then s
    else
      var (i, action) := e;
      var d := s.daemons[i];
      match action
      case TryLock =>
        var n := name(d.plan[d.reached]);
        if n in s.held then s.(daemons := s.daemons[i := d.(status := Aborting(0))])
        else
          var next := d.(reached := d.reached + 1,
                         status := if d.reached + 1 == |d.plan| then Succeeded else Acquiring);
          State(s.held[n := i], s.daemons[i := next])
      case Fault => s.(daemons := s.daemons[i := d.(status := Aborting(0))])
      case Release =>
        var next := d.(status := if d.status.Aborting? then Aborting(d.status.released + 1)
                                 else Exiting(d.status.released + 1));
        State(s.held - {name(HeldPaths(d)[0])}, s.daemons[i := next])
      case Exit => s.(daemons := s.daemons[i := d.(status := Exiting(0))])
  }

  function After(s: State, schedule: seq<Event>, name: Naming): State {
    if schedule == [] then s
    else Apply(After(s, schedule[..|schedule| - 1], name), schedule[|schedule| - 1], name)
  }

  function Start(plan: seq<Path>): Daemon { Daemon(plan, 0, Acquiring) }

  /** No lock is held and every daemon is about to make its attempt. */
  function Initial(plans: seq<seq<Path>>): (s: State)
    ensures |s.daemons| == |plans|
  {
    State(map[], Mapped(plans, Start))
  }

  // ----- Safety -----

  predicate Holds(d: Daemon, n: Name, name: Naming)
    requires WellFormed(d)
  {
    exists k :: 0 <= k < |HeldPaths(d)| && name(HeldPaths(d)[k]) == n
  }

  predicate DistinctNames(paths: seq<Path>, name: Naming) {
    forall i, j :: 0 <= i < j < |paths| ==> name(paths[i]) != name(paths[j])
  }

  /** A daemon whose acquired locks have distinct names. */
  predicate Consistent(d: Daemon, name: Naming) {
    WellFormed(d) && DistinctNames(d.plan[..d.reached], name)
  }

  ghost predicate Recorded(d: Daemon, i: nat, held: map<Name, nat>, name: Naming)
    requires WellFormed(d)
  {
    forall n :: Holds(d, n, name) <==> n in held && held[n] == i
  }

  /** The lock table says exactly which daemon holds which lock. */
  ghost predicate Invariant(s: State, name: Naming) {
    && (forall i :: 0 <= i < |s.daemons| ==>
          Consistent(s.daemons[i], name) && Recorded(s.daemons[i], i, s.held, name))
    && (forall n :: n in s.held ==> s.held[n] < |s.daemons|)
  }

  /** What a daemon holds are locks it acquired, each under its own name. */
  lemma HeldAreReached(d: Daemon, name: Naming)
    requires Consistent(d, name)
    ensures DistinctNames(HeldPaths(d), name)
    ensures forall k :: 0 <= k < |HeldPaths(d)| ==>
              exists j :: 0 <= j < d.reached && d.plan[j] == HeldPaths(d)[k]
  {
    var acquired, paths := d.plan[..d.reached], HeldPaths(d);
    forall k | 0 <= k < |paths|
      ensures 0 <= AcquiredAt(d, k) < d.reached && paths[k] == acquired[AcquiredAt(d, k)]
    {
      if d.status.Aborting? {
        var order := AbortOrder(d);
        assert paths[k] == order[k + d.status.released];
      }
    }
    forall k | 0 <= k < |paths|
      ensures exists j :: 0 <= j < d.reached && d.plan[j] == paths[k]
    {
      assert d.plan[AcquiredAt(d, k)] == paths[k];
    }
  }

  /** The plan position of the `k`th lock a daemon holds. */
  function AcquiredAt(d: Daemon, k: nat): int {
    match d.status
    case Aborting(released) => if k + released == d.reached - 1 then 0 else k + released + 1
    case Exiting(released) => k + released
    case _ => k
  }

  /** Replacing one daemon and its entries in the table keeps the invariant. */
  lemma UpdateKeepsInvariant(s: State, i: nat, next: Daemon, held: map<Name, nat>, name: Naming)
    requires Invariant(s, name) && i < |s.daemons|
    requires Consistent(next, name) && Recorded(next, i, held, name)
    requires forall n :: n in held ==> held[n] < |s.daemons|
    requires forall n :: n in held && held[n] != i ==> n in s.held && s.held[n] == held[n]
    requires forall n :: n in s.held && s.held[n] != i ==> n in held && held[n] == s.held[n]
    ensures Invariant(State(held, s.daemons[i := next]), name)
  {}

  lemma AbortHoldsTheSame(d: Daemon, n: Name, name: Naming)
    requires WellFormed(d) && d.status == Acquiring
    ensures WellFormed(d.(status := Aborting(0)))
    ensures Holds(d.(status := Aborting(0)), n, name) <==> Holds(d, n, name)
  {
    var a, b := HeldPaths(d), HeldPaths(d.(status := Aborting(0)));
    assert |a| == |b| == d.reached;
    assert forall k :: 0 <= k < |a| ==> a[k] == b[if k == 0 then |a| - 1 else k - 1];
    assert forall k :: 0 <= k < |b| ==> b[k] == a[if k == |b| - 1 then 0 else k + 1];
  }

  lemma AbortKeepsInvariant(s: State, i: nat, name: Naming)
    requires Invariant(s, name) && Enabled(s, (i, Fault))
    ensures Invariant(Apply(s, (i, Fault), name), name)
  {
    var d := s.daemons[i];
    forall n
      ensures Holds(d.(status := Aborting(0)), n, name) <==> Holds(d, n, name)
    {
      AbortHoldsTheSame(d, n, name);
    }
    UpdateKeepsInvariant(s, i, d.(status := Aborting(0)), s.held, name);
  }

  lemma AcquireHolds(d: Daemon, next: Daemon, n: Name, name: Naming)
    requires WellFormed(d) && d.status == Acquiring
    requires next.plan == d.plan && next.reached == d.reached + 1 && WellFormed(next)
    requires next.status == Acquiring || next.status == Succeeded
    ensures Holds(next, n, name) <==> Holds(d, n, name) || n == name(d.plan[d.reached])
  {
    var a, b := HeldPaths(d), HeldPaths(next);
    assert b == a + [d.plan[d.reached]];
    assert forall k :: 0 <= k < |a| ==> b[k] == a[k];
  }

  lemma AcquireKeepsInvariant(s: State, i: nat, name: Naming)
    requires Invariant(s, name) && Enabled(s, (i, TryLock))
    requires name(s.daemons[i].plan[s.daemons[i].reached]) !in s.held
    ensures Invariant(Apply(s, (i, TryLock), name), name)
  {
    var d := s.daemons[i];
    var t := Apply(s, (i, TryLock), name);
    var next := t.daemons[i];
    var taken := name(d.plan[d.reached]);
    forall n
      ensures Holds(next, n, name) <==> Holds(d, n, name) || n == taken
    {
      AcquireHolds(d, next, n, name);
    }
    forall k | 0 <= k < d.reached
      ensures name(d.plan[k]) != taken
    {
      assert HeldPaths(d)[k] == d.plan[k];
      assert Holds(d, name(d.plan[k]), name);
    }
    UpdateKeepsInvariant(s, i, next, t.held, name);
  }

  lemma ReleaseHolds(d: Daemon, next: Daemon, n: Name, name: Naming)
    requires Consistent(d, name) && WellFormed(next) && HeldPaths(d) != []
    requires HeldPaths(next) == HeldPaths(d)[1..]
    ensures Holds(next, n, name) <==> Holds(d, n, name) && n != name(HeldPaths(d)[0])
  {
    HeldAreReached(d, name);
    var a, b := HeldPaths(d), HeldPaths(next);
    assert forall k :: 0 < k < |a| ==> a[k] == b[k - 1];
    assert forall k :: 0 <= k < |b| ==> b[k] == a[k + 1];
  }

  lemma ReleaseKeepsInvariant(s: State, i: nat, name: Naming)
    requires Invariant(s, name) && Enabled(s, (i, Release))
    ensures Invariant(Apply(s, (i, Release), name), name)
  {
    var d := s.daemons[i];
    var t := Apply(s, (i, Release), name);
    var next := t.daemons[i];
    var dropped := name(HeldPaths(d)[0]);
    assert Holds(d, dropped, name);
    forall n
      ensures Holds(next, n, name) <==> Holds(d, n, name) && n != dropped
    {
      ReleaseHolds(d, next, n, name);
    }
    UpdateKeepsInvariant(s, i, next, t.held, name);
  }

  lemma ExitKeepsInvariant(s: State, i: nat, name: Naming)
    requires Invariant(s, name) && Enabled(s, (i, Exit))
    ensures Invariant(Apply(s, (i, Exit), name), name)
  {
    var d := s.daemons[i];
    var next := d.(status := Exiting(0));
    assert HeldPaths(next) == HeldPaths(d);
    assert forall n :: Holds(next, n, name) <==> Holds(d, n, name);
    UpdateKeepsInvariant(s, i, next, s.held, name);
  }

  /** Every step of every daemon keeps the invariant. */
  lemma StepKeepsInvariant(s: State, e: Event, name: Naming)
    requires Invariant(s, name)
    ensures Invariant(Apply(s, e, name), name)
  {
    hide Invariant;
    if Enabled(s, e) {
      var i := e.0;
      match e.1
      case TryLock =>
        if name(s.daemons[i].plan[s.daemons[i].reached]) in s.held {
          AbortKeepsInvariant(s, i, name);
        } else {
          AcquireKeepsInvariant(s, i, name);
        }
      case Fault => AbortKeepsInvariant(s, i, name);
      case Release => ReleaseKeepsInvariant(s, i, name);
      case Exit => ExitKeepsInvariant(s, i, name);
    }
  }

  lemma {:induction false} RunKeepsInvariant(plans: seq<seq<Path>>, schedule: seq<Event>, name: Naming)
    requires forall i :: 0 <= i < |plans| ==> plans[i] != []
    ensures Invariant(After(Initial(plans), schedule, name), name)
  {
    if schedule == [] {
      var s := Initial(plans);
      forall i | 0 <= i < |s.daemons|
        ensures Consistent(s.daemons[i], name) && Recorded(s.daemons[i], i, s.held, name)
      {
        assert s.daemons[i] == Start(plans[i]);
      }
    } else {
      RunKeepsInvariant(plans, schedule[..|schedule| - 1], name);
      StepKeepsInvariant(After(Initial(plans), schedule[..|schedule| - 1], name), schedule[|schedule| - 1], name);
    }
  }

  lemma {:induction false} RunKeepsPlans(plans: seq<seq<Path>>, schedule: seq<Event>, name: Naming)
    ensures var s := After(Initial(plans), schedule, name);
      |s.daemons| == |plans| && forall i :: 0 <= i < |plans| ==> s.daemons[i].plan == plans[i]
  {
    if schedule != [] {
      RunKeepsPlans(plans, schedule[..|schedule| - 1], name);
    }
  }

  /**
   In every interleaving, with faults and exits: no lock has two holders; a
   daemon still acquiring is recorded for exactly the names of a prefix of its
   plan; one that has failed and released is recorded for nothing; and one that
   got through has a plan without repeated names.
   */
  lemma SafeInEveryInterleaving(plans: seq<seq<Path>>, schedule: seq<Event>, name: Naming)
    requires forall i :: 0 <= i < |plans| ==> plans[i] != []
    ensures var s := After(Initial(plans), schedule, name);
      && |s.daemons| == |plans|
      && (forall i :: 0 <= i < |plans| ==> WellFormed(s.daemons[i]) && s.daemons[i].plan == plans[i])
      && (forall i, j, n | 0 <= i < |plans| && 0 <= j < |plans| ::
            Holds(s.daemons[i], n, name) && Holds(s.daemons[j], n, name) ==> i == j)
      && (forall i, n :: 0 <= i < |plans| && s.daemons[i].status.Acquiring? ==>
            ((n in s.held && s.held[n] == i) <==> NamedIn(n, plans[i][..s.daemons[i].reached], name)))
      && (forall i, n | 0 <= i < |plans| && s.daemons[i].status == Aborting(s.daemons[i].reached) ::
            n in s.held ==> s.held[n] != i)
      && (forall i :: 0 <= i < |plans| && s.daemons[i].reached == |plans[i]| ==> DistinctNames(plans[i], name))
  {
    RunKeepsInvariant(plans, schedule, name);
    RunKeepsPlans(plans, schedule, name);
    var s := After(Initial(plans), schedule, name);
    hide After, Initial;
    forall i | 0 <= i < |plans|
      ensures s.daemons[i].status.Acquiring? ==>
        forall n :: (n in s.held && s.held[n] == i) <==> NamedIn(n, plans[i][..s.daemons[i].reached], name)
      ensures s.daemons[i].status == Aborting(s.daemons[i].reached) ==> forall n :: n in s.held ==> s.held[n] != i
      ensures s.daemons[i].reached == |plans[i]| ==> DistinctNames(plans[i], name)
    {
      DaemonSafe(s.daemons[i], i, s.held, name);
    }
    forall i, j, n | 0 <= i < |plans| && 0 <= j < |plans| && Holds(s.daemons[i], n, name) && Holds(s.daemons[j], n, name)
      ensures i == j
    {
      assert Recorded(s.daemons[i], i, s.held, name) && Recorded(s.daemons[j], j, s.held, name);
    }
  }

  /** What the invariant says of one daemon. */
  lemma DaemonSafe(d: Daemon, i: nat, held: map<Name, nat>, name: Naming)
    requires Consistent(d, name) && Recorded(d, i, held, name)
    ensures d.status.Acquiring? ==> forall n :: (n in held && held[n] == i) <==> NamedIn(n, d.plan[..d.reached], name)
    ensures d.status == Aborting(d.reached) ==> forall n :: n in held ==> held[n] != i
    ensures d.reached == |d.plan| ==> DistinctNames(d.plan, name)
  {
    if d.status.Acquiring? {
      var paths := d.plan[..d.reached];
      assert HeldPaths(d) == paths;
      forall n
        ensures (n in held && held[n] == i) <==> NamedIn(n, d.plan[..d.reached], name)
      {
        assert NamedIn(n, HeldPaths(d), name) <==> NamedIn(n, paths, name);
      }
    }
    if d.status == Aborting(d.reached) {
      assert HeldPaths(d) == [];
    }
    if d.reached == |d.plan| {
      assert d.plan[..d.reached] == d.plan;
    }
  }

  predicate NamedIn(n: Name, paths: seq<Path>, name: Naming) {
    exists k :: 0 <= k < |paths| && name(paths[k]) == n
  }

  /** A request that names one state path twice never gets all its locks. */
  lemma RepeatedPathNeverSucceeds(plans: seq<seq<Path>>, schedule: seq<Event>, name: Naming, i: nat, j: nat, k: nat)
    requires forall m :: 0 <= m < |plans| ==> plans[m] != []
    requires i < |plans| && j < k < |plans[i]| && plans[i][j] == plans[i][k]
    ensures var s := After(Initial(plans), schedule, name);
      |s.daemons| == |plans| && s.daemons[i].reached < |plans[i]|
  {
    SafeInEveryInterleaving(plans, schedule, name);
    assert !DistinctNames(plans[i], name);
    assert WellFormed(After(Initial(plans), schedule, name).daemons[i]);
  }

  // ----- Progress -----

  /** A daemon gave up on a lock that another daemon had acquired. */
  ghost predicate BlockedByOther(s: State, i: nat, name: Naming)
    requires i < |s.daemons| && WellFormed(s.daemons[i]) && s.daemons[i].status.Aborting?
  {
    exists e, j :: 0 <= e < |s.daemons| && e != i && 0 <= j < s.daemons[e].reached <= |s.daemons[e].plan|
                && name(s.daemons[e].plan[j]) == name(s.daemons[i].plan[s.daemons[i].reached])
  }

  ghost predicate FailuresExplained(s: State, name: Naming) {
    forall i :: 0 <= i < |s.daemons| && WellFormed(s.daemons[i]) && s.daemons[i].status.Aborting? ==>
      BlockedByOther(s, i, name)
  }

  lemma BlockedByHolder(s: State, i: nat, name: Naming)
    requires Invariant(s, name) && Enabled(s, (i, TryLock)) && DistinctNames(s.daemons[i].plan, name)
    requires name(s.daemons[i].plan[s.daemons[i].reached]) in s.held
    ensures BlockedByOther(Apply(s, (i, TryLock), name), i, name)
  {
    var d := s.daemons[i];
    var n := name(d.plan[d.reached]);
    var e := s.held[n];
    var owner := s.daemons[e];
    assert Recorded(owner, e, s.held, name);
    assert Holds(owner, n, name);
    var k :| 0 <= k < |HeldPaths(owner)| && name(HeldPaths(owner)[k]) == n;
    HeldAreReached(owner, name);
    var j :| 0 <= j < owner.reached && owner.plan[j] == HeldPaths(owner)[k];
    var t := Apply(s, (i, TryLock), name);
    assert e != i;
    assert t.daemons[e] == owner && t.daemons[i].plan == d.plan && t.daemons[i].reached == d.reached;
  }

  lemma StepKeepsExplained(s: State, e: Event, name: Naming)
    requires Invariant(s, name) && FailuresExplained(s, name) && e.1 != Fault
    requires forall i :: 0 <= i < |s.daemons| ==> DistinctNames(s.daemons[i].plan, name)
    ensures FailuresExplained(Apply(s, e, name), name)
  {
    var t := Apply(s, e, name);
    StepKeepsInvariant(s, e, name);
    forall i | 0 <= i < |t.daemons| && WellFormed(t.daemons[i]) && t.daemons[i].status.Aborting?
      ensures BlockedByOther(t, i, name)
    {
      if s.daemons[i].status.Aborting? {
        BlockedPersists(s, e, i, name);
      } else {
        assert e == (i, TryLock);
        BlockedByHolder(s, i, name);
      }
    }
  }

  /** A daemon's plan never changes, it never gives back progress, and it never resumes a failed attempt. */
  lemma StepMonotone(s: State, e: Event, i: nat, name: Naming)
    requires i < |s.daemons|
    ensures |Apply(s, e, name).daemons| == |s.daemons|
    ensures var d, d' := s.daemons[i], Apply(s, e, name).daemons[i];
      && d'.plan == d.plan && d'.reached >= d.reached
      && (d.status.Aborting? ==> d'.status.Aborting? && d'.reached == d.reached)
  {}

  lemma BlockedPersists(s: State, e: Event, i: nat, name: Naming)
    requires Invariant(s, name) && i < |s.daemons| && s.daemons[i].status.Aborting?
    requires BlockedByOther(s, i, name)
    ensures Invariant(Apply(s, e, name), name)
    ensures Apply(s, e, name).daemons[i].status.Aborting? && BlockedByOther(Apply(s, e, name), i, name)
  {
    StepKeepsInvariant(s, e, name);
    hide Apply, DistinctNames, Recorded;
    var b, j :| 0 <= b < |s.daemons| && b != i && 0 <= j < s.daemons[b].reached <= |s.daemons[b].plan|
             && name(s.daemons[b].plan[j]) == name(s.daemons[i].plan[s.daemons[i].reached]);
    StepMonotone(s, e, i, name);
    StepMonotone(s, e, b, name);
    assert Consistent(Apply(s, e, name).daemons[b], name);
  }

  lemma {:induction false} RunKeepsExplained(plans: seq<seq<Path>>, schedule: seq<Event>, name: Naming)
    requires forall i :: 0 <= i < |plans| ==> plans[i] != [] && DistinctNames(plans[i], name)
    requires forall k :: 0 <= k < |schedule| ==> schedule[k].1 != Fault
    ensures FailuresExplained(After(Initial(plans), schedule, name), name)
  {
    if schedule != [] {
      var before := schedule[..|schedule| - 1];
      RunKeepsExplained(plans, before, name);
      RunKeepsInvariant(plans, before, name);
      RunKeepsPlans(plans, before, name);
      StepKeepsExplained(After(Initial(plans), before, name), schedule[|schedule| - 1], name);
    }
  }

  lemma {:induction false} Greatest(paths: seq<Path>, less: (Path, Path) -> bool) returns (m: nat)
    requires paths != [] && StrictTotalOrder(less)
    ensures m < |paths| && forall j :: 0 <= j < |paths| ==> !less(paths[m], paths[j])
  {
    if |paths| == 1 {
      m := 0;
    } else {
      var n := Greatest(paths[1..], less);
      m := if less(paths[n + 1], paths[0]) then 0 else n + 1;
      forall j | 0 <= j < |paths|
        ensures !less(paths[m], paths[j])
      {
        assert j > 0 ==> !less(paths[1..][n], paths[1..][j - 1]);
      }
    }
  }

  ghost predicate InjectiveOn(plans: seq<seq<Path>>, name: Naming) {
    forall i, j, k, l | 0 <= i < |plans| && 0 <= j < |plans| && 0 <= k < |plans[i]| && 0 <= l < |plans[j]| ::
      name(plans[i][k]) == name(plans[j][l]) ==> plans[i][k] == plans[j][l]
  }

  ghost predicate Ordered(plans: seq<seq<Path>>, less: (Path, Path) -> bool) {
    forall i :: 0 <= i < |plans| ==> plans[i] != [] && StrictlyAscending(plans[i], SelfPath, less)
  }

  lemma OrderedPlansDistinct(plans: seq<seq<Path>>, less: (Path, Path) -> bool, name: Naming, i: nat)
    requires StrictTotalOrder(less) && Ordered(plans, less) && InjectiveOn(plans, name) && i < |plans|
    ensures DistinctNames(plans[i], name)
  {}

  ghost predicate AllAborting(s: State, plans: seq<seq<Path>>) {
    && |s.daemons| == |plans|
    && forall i :: 0 <= i < |plans| ==>
         WellFormed(s.daemons[i]) && s.daemons[i].plan == plans[i] && s.daemons[i].status.Aborting?
  }

  /** The lock each failed daemon gave up on. */
  function Fronts(s: State, plans: seq<seq<Path>>): (fronts: seq<Path>)
    requires AllAborting(s, plans)
    ensures |fronts| == |plans| && forall i :: 0 <= i < |plans| ==> fronts[i] == plans[i][s.daemons[i].reached]
  {
    seq(|plans|, i requires 0 <= i < |plans| => plans[i][s.daemons[i].reached])
  }

  /** Whoever blocks a failed daemon can itself have failed only on a later lock. */
  lemma BlockerFailsLater(
    s: State, plans: seq<seq<Path>>, less: (Path, Path) -> bool, name: Naming, i: nat) returns (e: nat)
    requires Ordered(plans, less) && InjectiveOn(plans, name) && AllAborting(s, plans)
    requires i < |plans| && BlockedByOther(s, i, name)
    ensures e < |plans| && less(Fronts(s, plans)[i], Fronts(s, plans)[e])
  {
    var b, j :| 0 <= b < |s.daemons| && b != i && 0 <= j < s.daemons[b].reached <= |s.daemons[b].plan|
             && name(s.daemons[b].plan[j]) == name(s.daemons[i].plan[s.daemons[i].reached]);
    e := b;
    assert plans[b][j] == plans[i][s.daemons[i].reached];
    assert less(SelfPath(plans[b][j]), SelfPath(plans[b][s.daemons[b].reached]));
  }

  lemma ExplainedFailuresLeaveOne(s: State, plans: seq<seq<Path>>, less: (Path, Path) -> bool, name: Naming)
    requires plans != [] && StrictTotalOrder(less) && Ordered(plans, less) && InjectiveOn(plans, name)
    requires FailuresExplained(s, name)
    ensures !AllAborting(s, plans)
  {
    if AllAborting(s, plans) {
      var m := Greatest(Fronts(s, plans), less);
      var e := BlockerFailsLater(s, plans, less, name, m);
    }
  }

  /** In no interleaving have all daemons failed, as long as attempts fail only by contention. */
  lemma NotAllFail(plans: seq<seq<Path>>, schedule: seq<Event>, less: (Path, Path) -> bool, name: Naming)
    requires plans != [] && StrictTotalOrder(less) && Ordered(plans, less) && InjectiveOn(plans, name)
    requires forall k :: 0 <= k < |schedule| ==> schedule[k].1 != Fault
    ensures |After(Initial(plans), schedule, name).daemons| == |plans|
    ensures exists i :: 0 <= i < |plans| && !After(Initial(plans), schedule, name).daemons[i].status.Aborting?
  {
    var s := After(Initial(plans), schedule, name);
    RunKeepsInvariant(plans, schedule, name);
    RunKeepsPlans(plans, schedule, name);
    forall i | 0 <= i < |plans|
      ensures DistinctNames(plans[i], name)
    {
      OrderedPlansDistinct(plans, less, name, i);
    }
    hide After, DistinctNames, Recorded, FailuresExplained;
    RunKeepsExplained(plans, schedule, name);
    ExplainedFailuresLeaveOne(s, plans, less, name);
    assert forall i :: 0 <= i < |plans| ==> Consistent(s.daemons[i], name);
  }

  /** No daemon can try or release a lock any more. */
  ghost predicate Settled(s: State) {
    forall i :: !Enabled(s, (i, TryLock)) && !Enabled(s, (i, Release))
  }

  /** Once things settle, some daemon has acquired its whole set, and every other one holds all or nothing. */
  lemma SomeDaemonSucceeds(plans: seq<seq<Path>>, schedule: seq<Event>, less: (Path, Path) -> bool, name: Naming)
    requires plans != [] && StrictTotalOrder(less) && Ordered(plans, less) && InjectiveOn(plans, name)
    requires forall k :: 0 <= k < |schedule| ==> schedule[k].1 != Fault
    requires Settled(After(Initial(plans), schedule, name))
    ensures var s := After(Initial(plans), schedule, name);
      && |s.daemons| == |plans|
      && (exists i :: 0 <= i < |plans| && s.daemons[i].reached == |plans[i]|)
      && (forall i :: 0 <= i < |plans| ==> WellFormed(s.daemons[i]))
      && (forall i :: 0 <= i < |plans| ==> s.daemons[i].status.Succeeded? || HeldPaths(s.daemons[i]) == [])
  {
    var s := After(Initial(plans), schedule, name);
    NotAllFail(plans, schedule, less, name);
    RunKeepsInvariant(plans, schedule, name);
    RunKeepsPlans(plans, schedule, name);
    forall i | 0 <= i < |plans|
      ensures !s.daemons[i].status.Acquiring?
      ensures s.daemons[i].status.Succeeded? || HeldPaths(s.daemons[i]) == []
    {
      assert !Enabled(s, (i, TryLock)) && !Enabled(s, (i, Release));
    }
  }

  // ----- The plans the source makes -----

  /** The lock order: the agent-state lock first, then backends by path. */
  function AgentFirst(agent: Path): (Path, Path) -> bool {
    (p, q) => q != agent && (p == agent || PathLess(p, q))
  }

  lemma AgentFirstIsTotal(agent: Path)
    ensures StrictTotalOrder(AgentFirst(agent))
  {
    PathLessIsTotal();
  }

  lemma DaemonPlanAscends(agent: Path, backends: seq<Path>)
    requires agent !in backends && DistinctKeys(backends, SelfPath)
    ensures StrictlyAscending(DaemonPlan(agent, backends), SelfPath, AgentFirst(agent))
  {
    hide PathLess, StableSort;
    PathLessIsTotal();
    StableSortAscends(backends, SelfPath, PathLess);
    StableSortMultiset(backends, SelfPath, PathLess);
    var sorted := StableSort(backends, SelfPath, PathLess);
    if agent in sorted {
      MultisetMember(sorted, backends, agent);
    }
    AgentThenSorted(agent, sorted);
  }

  lemma AgentThenSorted(agent: Path, sorted: seq<Path>)
    requires agent !in sorted && StrictlyAscending(sorted, SelfPath, PathLess)
    ensures StrictlyAscending([agent] + sorted, SelfPath, AgentFirst(agent))
  {
    hide PathLess;
    var plan, less := [agent] + sorted, AgentFirst(agent);
    forall i, j | 0 <= i < j < |plan|
      ensures less(SelfPath(plan[i]), SelfPath(plan[j]))
    {
      assert plan[j] == sorted[j - 1];
      if i > 0 {
        assert PathLess(SelfPath(sorted[i - 1]), SelfPath(sorted[j - 1]));
      }
    }
  }

  datatype Request = WithAgents(backends: seq<Path>) | Alone(backend: Path)

  function PlanOf(agent: Path, r: Request): seq<Path> {
    match r
    case WithAgents(backends) => DaemonPlan(agent, backends)
    case Alone(backend) => SinglePlan(backend)
  }

  function PlanFor(agent: Path): Request -> seq<Path> {
    r => PlanOf(agent, r)
  }

  /** The state paths a request asks to lock. */
  predicate Wants(agent: Path, r: Request, p: Path) {
    match r
    case WithAgents(backends) => p == agent || p in backends
    case Alone(backend) => p == backend
  }

  /** A plan locks what was requested: the one backend; or the agent state, and then all backends in path order. */
  lemma PlanLocksRequest(agent: Path, r: Request)
    ensures r.Alone? ==> PlanOf(agent, r) == [r.backend]
    ensures r.WithAgents? ==>
      var plan := PlanOf(agent, r);
      plan[0] == agent && multiset(plan[1..]) == multiset(r.backends) && SortedBy(plan[1..], SelfPath, PathLess)
    ensures forall p :: p in PlanOf(agent, r) <==> Wants(agent, r, p)
  {
    hide StableSort, PathLess;
    if r.WithAgents? {
      PathLessIsTotal();
      StableSortMultiset(r.backends, SelfPath, PathLess);
      StableSortSorted(r.backends, SelfPath, PathLess);
      var plan, sorted := PlanOf(agent, r), StableSort(r.backends, SelfPath, PathLess);
      assert plan == [agent] + sorted && plan[1..] == sorted;
      assert forall p :: p in sorted <==> p in multiset(sorted);
      assert forall p :: p in r.backends <==> p in multiset(r.backends);
    }
  }

  /** Under every schedule, two daemons that both have their locks asked for no path in common. */
  lemma RequestsExclude(
    agent: Path, requests: seq<Request>, schedule: seq<Event>, name: Naming, i: nat, j: nat, p: Path)
    requires i < |requests| && j < |requests| && i != j
    ensures var s := After(Initial(Mapped(requests, PlanFor(agent))), schedule, name);
      |s.daemons| == |requests| &&
      (s.daemons[i].status.Succeeded? && s.daemons[j].status.Succeeded? ==>
         !(Wants(agent, requests[i], p) && Wants(agent, requests[j], p)))
  {
    var plans := Mapped(requests, PlanFor(agent));
    PlanLocksRequest(agent, requests[i]);
    PlanLocksRequest(agent, requests[j]);
    SafeInEveryInterleaving(plans, schedule, name);
    var s := After(Initial(plans), schedule, name);
    hide After, PlanOf, Wants;
    if s.daemons[i].status.Succeeded? && p in plans[i] {
      HoldsPlan(s.daemons[i], p, name);
    }
    if s.daemons[j].status.Succeeded? && p in plans[j] {
      HoldsPlan(s.daemons[j], p, name);
    }
  }

  lemma HoldsPlan(d: Daemon, p: Path, name: Naming)
    requires WellFormed(d) && d.status.Succeeded? && p in d.plan
    ensures Holds(d, name(p), name)
  {
    var k :| 0 <= k < |d.plan| && d.plan[k] == p;
    assert name(HeldPaths(d)[k]) == name(p);
  }

  /**
   The next lock given up: after a failed attempt the backends in the order they
   were acquired and the agent-state lock last; on a normal exit in plan order.
   */
  lemma ReleaseOrder(d: Daemon)
    requires WellFormed(d) && HeldPaths(d) != []
    ensures d.status.Aborting? ==>
      HeldPaths(d)[0] == if d.status.released + 1 < d.reached then d.plan[d.status.released + 1] else d.plan[0]
    ensures d.status.Exiting? ==> HeldPaths(d)[0] == d.plan[d.status.released]
  {}

  /**
   Any number of daemons, with or without agents, each making one attempt from a
   free table with a duplicate-free request: under every interleaving, once no
   more attempts or releases are possible, one of them has all its locks.
   */
  lemma LockOrderGivesProgress(agent: Path, requests: seq<Request>, schedule: seq<Event>, name: Naming)
    requires requests != []
    requires forall i :: 0 <= i < |requests| && requests[i].WithAgents? ==>
               agent !in requests[i].backends && DistinctKeys(requests[i].backends, SelfPath)
    requires InjectiveOn(Mapped(requests, PlanFor(agent)), name)
    requires forall k :: 0 <= k < |schedule| ==> schedule[k].1 != Fault
    requires Settled(After(Initial(Mapped(requests, PlanFor(agent))), schedule, name))
    ensures var plans := Mapped(requests, PlanFor(agent));
      var s := After(Initial(plans), schedule, name);
      |s.daemons| == |plans| && exists i :: 0 <= i < |plans| && s.daemons[i].reached == |plans[i]|
  {
    var plans := Mapped(requests, PlanFor(agent));
    AgentFirstIsTotal(agent);
    forall i | 0 <= i < |plans|
      ensures plans[i] != [] && StrictlyAscending(plans[i], SelfPath, AgentFirst(agent))
    {
      match requests[i]
      case WithAgents(backends) => DaemonPlanAscends(agent, backends);
      case Alone(_) =>
    }
    SomeDaemonSucceeds(plans, schedule, AgentFirst(agent), name);
  }

  // ----- Termination -----

  function Work(d: Daemon): nat {
    if !WellFormed(d) then 0
    else match d.status
      case Acquiring => 2 * |d.plan| - d.reached + 2
      case Succeeded => |d.plan| + 1
      case Aborting(released) => d.reached - released
      case Exiting(released) => |d.plan| - released
  }

  function TotalWork(ds: seq<Daemon>): nat {
    if ds == [] then 0 else Work(ds[0]) + TotalWork(ds[1..])
  }

  lemma {:induction false} TotalWorkUpdate(ds: seq<Daemon>, i: nat, d: Daemon)
    requires i < |ds|
    ensures TotalWork(ds[i := d]) == TotalWork(ds) - Work(ds[i]) + Work(d)
  {
    if i == 0 {
      assert ds[i := d][1..] == ds[1..];
    } else {
      TotalWorkUpdate(ds[1..], i - 1, d);
      assert ds[i := d][1..] == ds[1..][i - 1 := d];
    }
  }

  /** Each enabled step uses up work, so no run takes more than `TotalWork` of them. */
  lemma StepUsesWork(s: State, e: Event, name: Naming)
    requires Enabled(s, e)
    ensures TotalWork(Apply(s, e, name).daemons) < TotalWork(s.daemons)
  {
    OneWorksLess(s, e, name);
    hide Apply, Work;
    TotalWorkUpdate(s.daemons, e.0, Apply(s, e, name).daemons[e.0]);
  }

  lemma OneWorksLess(s: State, e: Event, name: Naming)
    requires Enabled(s, e)
    ensures |Apply(s, e, name).daemons| == |s.daemons|
    ensures Apply(s, e, name).daemons == s.daemons[e.0 := Apply(s, e, name).daemons[e.0]]
    ensures Work(Apply(s, e, name).daemons[e.0]) < Work(s.daemons[e.0])
  {
    hide TotalWork;
  }

  /** How many events of a schedule actually happen. */
  function Happened(s: State, schedule: seq<Event>, name: Naming): nat {
    if schedule == [] then 0
    else
      var before := schedule[..|schedule| - 1];
      Happened(s, before, name) + if Enabled(After(s, before, name), schedule[|schedule| - 1]) then 1 else 0
  }

  /** Every run is finite: the steps taken and the work left never exceed the initial work. */
  lemma {:induction false} RunsAreBounded(s: State, schedule: seq<Event>, name: Naming)
    ensures Happened(s, schedule, name) + TotalWork(After(s, schedule, name).daemons) <= TotalWork(s.daemons)
  {
    if schedule != [] {
      var before, last := schedule[..|schedule| - 1], schedule[|schedule| - 1];
      RunsAreBounded(s, before, name);
      if Enabled(After(s, before, name), last) {
        StepUsesWork(After(s, before, name), last, name);
      }
    }
  }

  lemma {:induction false} AfterAppend(s: State, a: seq<Event>, b: seq<Event>, name: Naming)
    ensures After(s, a + b, name) == After(After(s, a, name), b, name)
  {
    if b == [] {
      assert a + b == a;
    } else {
      hide Apply;
      var before := b[..|b| - 1];
      assert (a + b)[..|a + b| - 1] == a + before;
      AfterAppend(s, a, before, name);
    }
  }

  lemma AfterOne(s: State, e: Event, name: Naming)
    ensures After(s, [e], name) == Apply(s, e, name)
  {
    hide Apply;
    assert [e][..0] == [];
  }

  /** From any state, trying and releasing alone leads to a settled one. */
  lemma {:induction false} CanSettle(s: State, name: Naming) returns (more: seq<Event>)
    ensures Settled(After(s, more, name))
    ensures forall k :: 0 <= k < |more| ==> more[k].1 == TryLock || more[k].1 == Release
    decreases TotalWork(s.daemons)
  {
    more := [];
    if !Settled(s) {
      hide Apply, Enabled;
      var i: nat :| Enabled(s, (i, TryLock)) || Enabled(s, (i, Release));
      var e: Event := (i, if Enabled(s, (i, TryLock)) then TryLock else Release);
      StepUsesWork(s, e, name);
      var rest := CanSettle(Apply(s, e, name), name);
      AfterOne(s, e, name);
      AfterAppend(s, [e], rest, name);
      more := [e] + rest;
    }
  }

  /** Every run, whatever has happened in it, can be continued to a settled one. */
  lemma EveryRunCanSettle(s: State, schedule: seq<Event>, name: Naming) returns (more: seq<Event>)
    ensures Settled(After(s, schedule + more, name))
    ensures forall k :: 0 <= k < |more| ==> more[k].1 == TryLock || more[k].1 == Release
  {
    more := CanSettle(After(s, schedule, name), name);
    AfterAppend(s, schedule, more, name);
  }

  /**
   So progress is always reached: every fault-free run of such requests continues
   to a settled one, and there one of the daemons has all its locks.
   */
  lemma ProgressIsReached(agent: Path, requests: seq<Request>, schedule: seq<Event>, name: Naming)
    returns (more: seq<Event>)
    requires requests != []
    requires forall i :: 0 <= i < |requests| && requests[i].WithAgents? ==>
               agent !in requests[i].backends && DistinctKeys(requests[i].backends, SelfPath)
    requires InjectiveOn(Mapped(requests, PlanFor(agent)), name)
    requires forall k :: 0 <= k < |schedule| ==> schedule[k].1 != Fault
    ensures var plans := Mapped(requests, PlanFor(agent));
      var s := After(Initial(plans), schedule + more, name);
      && Settled(s) && |s.daemons| == |plans|
      && exists i :: 0 <= i < |plans| && s.daemons[i].reached == |plans[i]|
  {
    more := EveryRunCanSettle(Initial(Mapped(requests, PlanFor(agent))), schedule, name);
    LockOrderGivesProgress(agent, requests, schedule + more, name);
  }

  /** Two daemons that lock two backends in opposite orders can both fail: a common order is needed. */
  lemma OppositeOrdersCanBothFail(a: Path, b: Path, name: Naming)
    requires name(a) != name(b)
    ensures var s := After(Initial([[a, b], [b, a]]), [(0, TryLock), (1, TryLock), (0, TryLock), (1, TryLock)], name);
      |s.daemons| == 2 && s.daemons[0].status.Aborting? && s.daemons[1].status.Aborting?
  {
    var s0 := Initial([[a, b], [b, a]]);
    var all: seq<Event> := [(0, TryLock), (1, TryLock), (0, TryLock), (1, TryLock)];
    assert all[..3] == [(0, TryLock), (1, TryLock), (0, TryLock)];
    assert all[..2] == [(0, TryLock), (1, TryLock)] == all[..3][..2];
    assert all[..1] == [(0, TryLock)] == all[..2][..1];
    assert all[..1][..0] == [];
    assert s0.daemons == [Start([a, b]), Start([b, a])];
    var s1 := Apply(s0, (0, TryLock), name);
    assert After(s0, all[..1], name) == s1;
    assert s1 == State(map[name(a) := 0], [Daemon([a, b], 1, Acquiring), Start([b, a])]);
    var s2 := Apply(s1, (1, TryLock), name);
    assert After(s0, all[..2], name) == s2;
    assert s2 == State(map[name(a) := 0, name(b) := 1], [Daemon([a, b], 1, Acquiring), Daemon([b, a], 1, Acquiring)]);
    var s3 := Apply(s2, (0, TryLock), name);
    assert After(s0, all[..3], name) == s3;
    assert s3.daemons == [Daemon([a, b], 1, Aborting(0)), Daemon([b, a], 1, Acquiring)];
  }

  // ----- One attempt, as the source runs it -----

  /** The lock files of one runtime directory; the value is the holder. */
  class LockTable {
    var held: map<Name, nat>

    /** A non-blocking exclusive `flock`. */
    method TryAcquire(owner: nat, n: Name) returns (ok: bool)
      modifies this
      ensures ok == (n !in old(held))
      ensures held == if ok then old(held)[n := owner] else old(held)
    {
      ok := n !in held;
      if ok {
        held := held[n := owner];
      }
    }

    /**
     `DaemonLocks::acquire` without interference: it succeeds exactly when all
     names of the plan are free and distinct, then holding exactly those in
     addition, and otherwise leaves the table as it was.
     */
    method Acquire(owner: nat, plan: seq<Path>, name: Naming) returns (ok: bool)
      modifies this
      ensures ok <==> DistinctNames(plan, name) && AllFree(Names(plan, name), old(held))
      ensures held == if ok then Grown(old(held), Names(plan, name), owner) else old(held)
    {
      hide DistinctNames, Grown;
      var acquired: seq<Name> := [];
      GrownByNone(held, owner);
      NoNames(plan, name);
      for k := 0 to |plan|
        invariant acquired == Names(plan[..k], name) && held == Grown(old(held), acquired, owner)
        invariant AllFree(acquired, old(held)) && DistinctNames(plan[..k], name)
      {
        var n := name(plan[k]);
        NextName(plan, k, name);
        GrownKeys(old(held), acquired, owner);
        var got := TryAcquire(owner, n);
        if !got {
          Blocked(plan, k, name, old(held));
          GrownUndone(old(held), acquired, owner);
          held := held - (set m | m in acquired);
          return false;
        }
        GrownByOne(old(held), acquired, n, owner);
        acquired := acquired + [n];
      }
      assert plan[..|plan|] == plan;
      return true;
    }
  }

  // ----- The table after an attempt -----

  function Names(paths: seq<Path>, name: Naming): seq<Name> { Mapped(paths, name) }

  ghost predicate AllFree(names: seq<Name>, held: map<Name, nat>) { forall n :: n in names ==> n !in held }

  /** `held` and, for `owner`, the names. */
  function Grown(held: map<Name, nat>, names: seq<Name>, owner: nat): map<Name, nat> {
    held + map n | n in names :: owner
  }

  lemma GrownByNone(held: map<Name, nat>, owner: nat)
    ensures Grown(held, [], owner) == held
  {}

  lemma GrownByOne(held: map<Name, nat>, names: seq<Name>, n: Name, owner: nat)
    ensures Grown(held, names, owner)[n := owner] == Grown(held, names + [n], owner)
  {}

  lemma GrownKeys(held: map<Name, nat>, names: seq<Name>, owner: nat)
    ensures forall n :: n in Grown(held, names, owner) <==> n in held || n in names
  {}

  lemma GrownUndone(held: map<Name, nat>, names: seq<Name>, owner: nat)
    requires AllFree(names, held)
    ensures Grown(held, names, owner) - (set n | n in names) == held
  {}

  lemma NoNames(plan: seq<Path>, name: Naming)
    ensures Names(plan[..0], name) == [] && DistinctNames(plan[..0], name)
  {}

  lemma NextName(plan: seq<Path>, k: nat, name: Naming)
    requires k < |plan|
    ensures Names(plan[..k + 1], name) == Names(plan[..k], name) + [name(plan[k])]
    ensures DistinctNames(plan[..k], name) && name(plan[k]) !in Names(plan[..k], name) ==> DistinctNames(plan[..k + 1], name)
  {
    var names := Names(plan[..k], name);
    assert forall i :: 0 <= i < k ==> names[i] == name(plan[i]);
  }

  /** A name taken before, or by this attempt itself, means the plan cannot be had. */
  lemma Blocked(plan: seq<Path>, k: nat, name: Naming, held: map<Name, nat>)
    requires k < |plan| && (name(plan[k]) in held || name(plan[k]) in Names(plan[..k], name))
    ensures !(DistinctNames(plan, name) && AllFree(Names(plan, name), held))
  {
    var names := Names(plan, name);
    assert names[k] == name(plan[k]);
    if i :| 0 <= i < k && Names(plan[..k], name)[i] == name(plan[k]) {
      assert name(plan[i]) == name(plan[k]);
    }
  }
}
