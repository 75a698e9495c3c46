/**
  The process-wide operation barrier: every request holds a read lease on one RWMutex
  for its whole handler, and maintenance gives its lease up, polls for the write lock
  and runs alone.  The lock, the requests and every interleaving of their steps.
  */
module Barrier {
  import opened Wrappers

  /** Where a request stands.  Serving covers the handler body before and after maintenance. */
  datatype Phase = Arriving | Checking | Serving | Waiting | Entering | Exclusive | Closing | Finished

  /**
    held and unlocks belong to the request's lease; depth counts nested passes through
    operations, which find the lease in the context; started marks a handler body.
    */
  datatype Request = Request(phase: Phase, held: bool, unlocks: nat, depth: nat, started: bool)

  /** The RWMutex keeps a reader count and a writer flag; it does not know who holds it. */
  datatype System = System(readers: nat, writer: bool, stopped: bool, requests: map<nat, Request>)

  const INITIAL: System := System(0, false, false, map[])

  datatype Step =
    | Arrive(id: nat)
    | ReadLock(id: nat)
    | CheckStopped(id: nat)
    | Nest(id: nat)
    | Unnest(id: nat)
    | GiveUpLease(id: nat)
    | TryLock(id: nat)
    | TimeOut(id: nat)
    | Enter(id: nat, canceled: bool, admin: bool)
    | Finish(id: nat, stop: bool)
    | Return(id: nat)
    | Close(id: nat)

  function With(s: System, id: nat, r: Request): System {
    s.(requests := s.requests[id := r])
  }

  /** lease.release: unlocks at most once.  None means RUnlock of an unlocked mutex, which is fatal. */
  function Release(s: System, id: nat): Option<System>
    requires id in s.requests
  {
    var r := s.requests[id];
    if !r.held then Some(s)
    else if s.readers == 0 then None
    else Some(With(s, id, r.(held := false, unlocks := r.unlocks + 1)).(readers := s.readers - 1))
  }

  predicate In(s: System, id: nat, phase: Phase) {
    id in s.requests && s.requests[id].phase == phase
  }

  function Move(s: System, id: nat, phase: Phase): System
    requires id in s.requests
  {
    With(s, id, s.requests[id].(phase := phase))
  }

  /** Whether a step can be taken now; blocked steps wait. */
  predicate Enabled(s: System, step: Step) {
    match step
    case Arrive(id) => id !in s.requests
    case ReadLock(id) => In(s, id, Arriving) && !s.writer
    case CheckStopped(id) => In(s, id, Checking)
    case Nest(id) => In(s, id, Serving)
    case Unnest(id) => In(s, id, Serving) && s.requests[id].depth > 0
    case GiveUpLease(id) => In(s, id, Serving)
    case TryLock(id) => In(s, id, Waiting)
    case TimeOut(id) => In(s, id, Waiting)
    case Enter(id, _, _) => In(s, id, Entering)
    case Finish(id, _) => In(s, id, Exclusive)
    case Return(id) => In(s, id, Serving) && s.requests[id].depth == 0
    case Close(id) => In(s, id, Closing)
  }

  /** The state after a step; None stands for a fatal lock misuse. */
  function Next(s: System, step: Step): Option<System>
    requires Enabled(s, step)
  {
    match step
    case Arrive(id) => Some(With(s, id, Request(Arriving, false, 0, 0, false)))
    case ReadLock(id) =>
      Some(With(s, id, s.requests[id].(phase := Checking, held := true)).(readers := s.readers + 1))
    case CheckStopped(id) =>
      if s.stopped then Some(Move(s, id, Closing))
      else Some(With(s, id, s.requests[id].(phase := Serving, started := true)))
    case Nest(id) => Some(With(s, id, s.requests[id].(depth := s.requests[id].depth + 1)))
    case Unnest(id) => Some(With(s, id, s.requests[id].(depth := s.requests[id].depth - 1)))
    case GiveUpLease(id) =>
      // backupExclusive refuses a request without a held lease.
      if !s.requests[id].held then Some(s)
      else
        var t := Release(s, id);
        if t.None? then None else Some(Move(t.value, id, Waiting))
    case TryLock(id) =>
      if s.readers == 0 && !s.writer then Some(Move(s, id, Entering).(writer := true)) else Some(s)
    case TimeOut(id) => Some(Move(s, id, Serving))
    case Enter(id, canceled, admin) =>
      if canceled || s.stopped || !admin then Unlock(Move(s, id, Serving)) else Some(Move(s, id, Exclusive))
    case Finish(id, stop) => Unlock(Move(s, id, Serving).(stopped := s.stopped || stop))
    case Return(id) => Some(Move(s, id, Closing))
    case Close(id) =>
      var t := Release(s, id);
      if t.None? then None else Some(Move(t.value, id, Finished))
  }

  function Unlock(s: System): Option<System> {
    if s.writer then Some(s.(writer := false)) else None
  }

  // ----- The invariant -----

  function Holders(s: System): set<nat> {
    set id | id in s.requests && s.requests[id].held
  }

  predicate OwnsWriteLock(r: Request) {
    r.phase == Entering || r.phase == Exclusive
  }

  /** A lease is unlocked at most once, and exactly once by the time its request is finished. */
  predicate LeaseOk(r: Request) {
    match r.phase
    case Arriving => !r.held && r.unlocks == 0
    case Checking => r.held && r.unlocks == 0
    case Serving => (r.held && r.unlocks == 0) || (!r.held && r.unlocks == 1)
    case Waiting => !r.held && r.unlocks == 1
    case Entering => !r.held && r.unlocks == 1
    case Exclusive => !r.held && r.unlocks == 1
    case Closing => (r.held && r.unlocks == 0) || (!r.held && r.unlocks == 1)
    case Finished => !r.held && r.unlocks == 1
  }

  ghost predicate Safe(s: System) {
    && s.readers == |Holders(s)|
    && (forall id :: id in s.requests ==> LeaseOk(s.requests[id]))
    && (s.writer ==> s.readers == 0)
    && OneWriter(s)
  }

  ghost predicate OneWriter(s: System) {
    && (s.writer <==> exists id :: id in s.requests && OwnsWriteLock(s.requests[id]))
    && (forall i, j :: i in s.requests && j in s.requests ==>
          OwnsWriteLock(s.requests[i]) && OwnsWriteLock(s.requests[j]) ==> i == j)
  }

  /** Replacing a request by one that owns the write lock just as it did. */
  lemma OneWriterWith(s: System, id: nat, r: Request, readers: nat)
    requires OneWriter(s)
    requires OwnsWriteLock(r) == (id in s.requests && OwnsWriteLock(s.requests[id]))
    ensures OneWriter(With(s, id, r).(readers := readers))
  {
    var t := With(s, id, r).(readers := readers);
    if s.writer {
      var w :| w in s.requests && OwnsWriteLock(s.requests[w]);
      assert w in t.requests && OwnsWriteLock(t.requests[w]);
    }
  }

  /** Changing one request changes the holders by at most that request. */
  lemma HoldersWith(s: System, id: nat, r: Request)
    ensures Holders(With(s, id, r)) == if r.held then Holders(s) + {id} else Holders(s) - {id}
  {
  }

  predicate SameHold(r: Request, q: Request) {
    r.held == q.held && OwnsWriteLock(r) == OwnsWriteLock(q)
  }

  /** A step that changes no lock state keeps the lock part of the invariant. */
  lemma SafeWith(s: System, id: nat, r: Request)
    requires Safe(s) && LeaseOk(r)
    requires (if id in s.requests then SameHold(s.requests[id], r)
              else !r.held && !OwnsWriteLock(r))
    ensures Safe(With(s, id, r))
  {
    hide OneWriter;
    var t := With(s, id, r);
    HoldersWith(s, id, r);
    assert Holders(t) == Holders(s);
    OneWriterWith(s, id, r, s.readers);
  }

  lemma HeldLeaseIsCounted(s: System, id: nat)
    requires Safe(s) && id in s.requests && s.requests[id].held
    ensures s.readers > 0 && |Holders(s) - {id}| == s.readers - 1 && !s.writer
  {
    assert id in Holders(s);
  }

  lemma ReleaseIsSafe(s: System, id: nat, phase: Phase)
    requires Safe(s) && id in s.requests && s.requests[id].phase in {Serving, Closing}
    requires phase == Waiting || phase == Finished
    ensures Release(s, id).Some? && Safe(Move(Release(s, id).value, id, phase))
  {
    hide OneWriter;
    var r := s.requests[id];
    assert LeaseOk(r);
    if r.held {
      HeldLeaseIsCounted(s, id);
      var r' := r.(held := false, unlocks := 1, phase := phase);
      var t := With(s, id, r').(readers := s.readers - 1);
      assert Move(Release(s, id).value, id, phase) == t;
      HoldersWith(s, id, r');
      assert Holders(t) == Holders(s) - {id};
      OneWriterWith(s, id, r', s.readers - 1);
    } else {
      SafeWith(s, id, r.(phase := phase));
    }
  }

  lemma LockIsSafe(s: System, id: nat)
    requires Safe(s) && In(s, id, Waiting) && s.readers == 0 && !s.writer
    ensures Safe(Move(s, id, Entering).(writer := true))
  {
    var t := Move(s, id, Entering).(writer := true);
    assert Holders(t) == Holders(s);
    assert id in t.requests && OwnsWriteLock(t.requests[id]);
  }

  lemma UnlockIsSafe(s: System, id: nat, stopped: bool)
    requires Safe(s) && id in s.requests && OwnsWriteLock(s.requests[id])
    ensures Unlock(Move(s, id, Serving).(stopped := stopped)).Some?
    ensures Safe(Unlock(Move(s, id, Serving).(stopped := stopped)).value)
  {
    var t := Unlock(Move(s, id, Serving).(stopped := stopped)).value;
    assert Holders(t) == Holders(s);
  }

  /** Every step of every request keeps the invariant and none misuses the lock. */
  lemma StepIsSafe(s: System, step: Step)
    requires Safe(s) && Enabled(s, step)
    ensures Next(s, step).Some? && Safe(Next(s, step).value)
  {
    hide Safe;
    LeaseOf(s, step.id);
    match step
    case Arrive(id) => SafeWith(s, id, Request(Arriving, false, 0, 0, false));
    case ReadLock(id) => ReadLockIsSafe(s, id);
    case CheckStopped(id) =>
      SafeWith(s, id, s.requests[id].(phase := Closing));
      SafeWith(s, id, s.requests[id].(phase := Serving, started := true));
    case Nest(id) => SafeWith(s, id, s.requests[id].(depth := s.requests[id].depth + 1));
    case Unnest(id) => SafeWith(s, id, s.requests[id].(depth := s.requests[id].depth - 1));
    case GiveUpLease(id) => ReleaseIsSafe(s, id, Waiting);
    case TryLock(id) => if s.readers == 0 && !s.writer { LockIsSafe(s, id); }
    case TimeOut(id) => SafeWith(s, id, s.requests[id].(phase := Serving));
    case Enter(id, canceled, admin) =>
      UnlockIsSafe(s, id, s.stopped);
      SafeWith(s, id, s.requests[id].(phase := Exclusive));
    case Finish(id, stop) => UnlockIsSafe(s, id, s.stopped || stop);
    case Return(id) => SafeWith(s, id, s.requests[id].(phase := Closing));
    case Close(id) => ReleaseIsSafe(s, id, Finished);
  }

  lemma LeaseOf(s: System, id: nat)
    requires Safe(s)
    ensures id in s.requests ==> LeaseOk(s.requests[id])
  {
  }

  lemma ReadLockIsSafe(s: System, id: nat)
    requires Safe(s) && In(s, id, Arriving) && !s.writer
    ensures Safe(With(s, id, s.requests[id].(phase := Checking, held := true)).(readers := s.readers + 1))
  {
    var t := With(s, id, s.requests[id].(phase := Checking, held := true)).(readers := s.readers + 1);
    assert id !in Holders(s);
    assert Holders(t) == Holders(s) + {id};
  }

  // ----- All interleavings -----

  /** The states that a sequence of enabled steps passes through. */
  ghost predicate Execution(s: System, steps: seq<Step>, t: System)
    decreases |steps|
  {
    if steps == [] then s == t
    else Enabled(s, steps[0]) && Next(s, steps[0]).Some? && Execution(Next(s, steps[0]).value, steps[1..], t)
  }

  lemma {:induction false} ExecutionIsSafe(s: System, steps: seq<Step>, t: System)
    requires Safe(s) && Execution(s, steps, t)
    ensures Safe(t)
    decreases |steps|
  {
    hide Safe, Next, Enabled;
    if steps == [] {
    } else {
      StepIsSafe(s, steps[0]);
      ExecutionIsSafe(Next(s, steps[0]).value, steps[1..], t);
    }
  }

  /**
    In every reachable state: while one request runs the exclusive function no request
    holds a lease and no other one owns the write lock; finished requests have unlocked
    their lease exactly once, all others at most once; and no enabled step is fatal.
    */
  lemma BarrierSafety(steps: seq<Step>, t: System)
    requires Execution(INITIAL, steps, t)
    ensures forall id :: In(t, id, Exclusive) ==>
              && t.readers == 0 && Holders(t) == {}
              && forall other :: other in t.requests && OwnsWriteLock(t.requests[other]) ==> other == id
    ensures forall id :: id in t.requests ==> t.requests[id].unlocks <= 1
    ensures forall id :: In(t, id, Finished) ==> t.requests[id].unlocks == 1 && !t.requests[id].held
    ensures forall step :: Enabled(t, step) ==> Next(t, step).Some?
  {
    assert Holders(INITIAL) == {};
    ExecutionIsSafe(INITIAL, steps, t);
    forall id | In(t, id, Exclusive)
      ensures t.readers == 0 && Holders(t) == {}
    {
      assert OwnsWriteLock(t.requests[id]);
    }
    forall id | id in t.requests
      ensures t.requests[id].unlocks <= 1
    {
      assert LeaseOk(t.requests[id]);
    }
    forall step | Enabled(t, step)
      ensures Next(t, step).Some?
    {
      StepIsSafe(t, step);
    }
  }

  /** However many maintenance requests are waiting, a new request gets its lease unless one of them has the lock. */
  lemma WaitingBlocksNobody(steps: seq<Step>, t: System, id: nat)
    requires Execution(INITIAL, steps, t) && In(t, id, Arriving)
    ensures Enabled(t, ReadLock(id)) <==> forall other :: other in t.requests ==> !OwnsWriteLock(t.requests[other])
  {
    assert Holders(INITIAL) == {};
    ExecutionIsSafe(INITIAL, steps, t);
  }

  /**
    Once stopped is set it stays set, and no request starts its handler any more.  A request
    that had already started may still pass through operations again, nested.
    */
  lemma {:induction false} StoppedMeansStopped(s: System, steps: seq<Step>, t: System, id: nat)
    requires s.stopped && Execution(s, steps, t)
    ensures t.stopped
    ensures id in t.requests && t.requests[id].started ==> id in s.requests && s.requests[id].started
    decreases |steps|
  {
    if steps == [] {
    } else {
      StoppedStep(s, steps[0], id);
      StoppedMeansStopped(Next(s, steps[0]).value, steps[1..], t, id);
    }
  }

  lemma StoppedStep(s: System, step: Step, id: nat)
    requires s.stopped && Enabled(s, step) && Next(s, step).Some?
    ensures var t := Next(s, step).value;
            t.stopped && (id in t.requests && t.requests[id].started ==> id in s.requests && s.requests[id].started)
  {
  }

  /** Only an exclusive function that no other request overlaps can stop the process. */
  lemma StoppingIsExclusive(s: System, step: Step)
    requires Safe(s) && !s.stopped && Enabled(s, step) && Next(s, step).Some? && Next(s, step).value.stopped
    ensures In(s, step.id, Exclusive) && s.readers == 0 && Holders(s) == {}
  {
    assert step.Finish?;
    assert OwnsWriteLock(s.requests[step.id]);
  }

  /** Once stopped, nobody runs the exclusive function and nobody serving has kept a lease. */
  ghost predicate Quiet(s: System) {
    s.stopped ==> forall id :: id in s.requests ==> QuietRequest(s.requests[id])
  }

  predicate QuietRequest(r: Request) {
    r.phase != Exclusive && (r.phase == Serving ==> !r.held)
  }

  lemma QuietStep(s: System, step: Step)
    requires Safe(s) && Quiet(s) && Enabled(s, step) && Next(s, step).Some?
    ensures Quiet(Next(s, step).value)
  {
    var t := Next(s, step).value;
    if !s.stopped && t.stopped {
      StoppingIsExclusive(s, step);
      forall id | id in t.requests
        ensures QuietRequest(t.requests[id])
      {
        assert id !in Holders(s);
        assert id != step.id ==> !OwnsWriteLock(s.requests[id]);
      }
    }
  }

  lemma {:induction false} ExecutionIsQuiet(s: System, steps: seq<Step>, t: System)
    requires Safe(s) && Quiet(s) && Execution(s, steps, t)
    ensures Quiet(t)
    decreases |steps|
  {
    hide Safe, Quiet, Next, Enabled;
    if steps == [] {
    } else {
      StepIsSafe(s, steps[0]);
      QuietStep(s, steps[0]);
      ExecutionIsQuiet(Next(s, steps[0]).value, steps[1..], t);
    }
  }

  /**
    In every reachable stopped state nobody runs the exclusive function, and a request can
    enter a nested operation only if it has given its lease up for maintenance.
    */
  lemma StoppedMeansDrained(steps: seq<Step>, t: System, id: nat)
    requires Execution(INITIAL, steps, t) && t.stopped && id in t.requests
    ensures t.requests[id].phase != Exclusive
    ensures Enabled(t, Nest(id)) ==> !t.requests[id].held && t.requests[id].unlocks == 1
  {
    assert Holders(INITIAL) == {};
    ExecutionIsSafe(INITIAL, steps, t);
    ExecutionIsQuiet(INITIAL, steps, t);
    assert LeaseOk(t.requests[id]) && QuietRequest(t.requests[id]);
  }

  // ----- Who may run the exclusive function -----

  /** The decision behind the lock: canceled, stopped or no administrator any more means out, with the lock free. */
  lemma EnterDecides(s: System, id: nat, canceled: bool, admin: bool)
    requires Safe(s) && Enabled(s, Enter(id, canceled, admin))
    ensures var next := Next(s, Enter(id, canceled, admin));
            && next.Some?
            && var t := next.value;
               if admin && !canceled && !s.stopped
               then In(t, id, Exclusive) && t.writer
               else
                 && In(t, id, Serving) && !t.writer && !t.requests[id].held
                 && forall other :: other in t.requests ==> !OwnsWriteLock(t.requests[other])
  {
    StepIsSafe(s, Enter(id, canceled, admin));
    assert OwnsWriteLock(s.requests[id]) && LeaseOk(s.requests[id]);
  }

  /** The lock is taken exactly when no request holds a lease and nobody owns it. */
  lemma TryLockTakes(steps: seq<Step>, t: System, id: nat)
    requires Execution(INITIAL, steps, t) && In(t, id, Waiting)
    ensures var next := Next(t, TryLock(id));
            && next.Some?
            && (In(next.value, id, Entering) <==>
                  forall x :: x in t.requests ==> !t.requests[x].held && !OwnsWriteLock(t.requests[x]))
            && (!In(next.value, id, Entering) ==> next.value == t)
  {
    assert Holders(INITIAL) == {};
    ExecutionIsSafe(INITIAL, steps, t);
    if forall x :: x in t.requests ==> !t.requests[x].held {
      assert Holders(t) == {};
    }
    if t.readers == 0 {
      assert forall x :: x in t.requests && t.requests[x].held ==> x in Holders(t);
    }
  }

  predicate Enters(step: Step, id: nat) {
    step.Enter? && step.id == id
  }

  /** Some state before step k of the run was reached and was not stopped. */
  ghost predicate RunningBefore(s: System, steps: seq<Step>, k: nat)
    requires k <= |steps|
  {
    exists u :: Execution(s, steps[..k], u) && !u.stopped
  }

  /** id entered at step k as an uncanceled administrator while the process was running, and has not entered again. */
  ghost predicate Admitted(s: System, steps: seq<Step>, id: nat, k: nat) {
    && k < |steps| && steps[k] == Enter(id, false, true) && RunningBefore(s, steps, k)
    && forall j :: k < j < |steps| ==> !Enters(steps[j], id)
  }

  lemma {:induction false} ExclusiveSince(s: System, steps: seq<Step>, t: System, id: nat)
    requires Execution(s, steps, t) && In(t, id, Exclusive)
    ensures (In(s, id, Exclusive) && forall j :: 0 <= j < |steps| ==> !Enters(steps[j], id))
         || exists k: nat :: Admitted(s, steps, id, k)
    decreases |steps|
  {
    hide Next, Enabled, Admitted;
    if steps == [] {
    } else {
      var u := Next(s, steps[0]).value;
      ExclusiveSince(u, steps[1..], t, id);
      assert forall j :: 0 < j < |steps| ==> steps[j] == steps[1..][j - 1];
      if k: nat :| Admitted(u, steps[1..], id, k) {
        AdmittedLater(s, steps, id, k);
      } else {
        ExclusiveStep(s, steps[0], id);
        if steps[0] == Enter(id, false, true) && !s.stopped {
          AdmittedFirst(s, steps, id);
        }
      }
    }
  }

  lemma ExclusiveStep(s: System, step: Step, id: nat)
    requires Enabled(s, step) && Next(s, step).Some? && In(Next(s, step).value, id, Exclusive)
    ensures (step == Enter(id, false, true) && !s.stopped) || (In(s, id, Exclusive) && !Enters(step, id))
  {
  }

  lemma AdmittedFirst(s: System, steps: seq<Step>, id: nat)
    requires steps != [] && steps[0] == Enter(id, false, true) && !s.stopped
    requires forall j :: 0 < j < |steps| ==> !Enters(steps[j], id)
    ensures Admitted(s, steps, id, 0)
  {
    assert Execution(s, steps[..0], s);
  }

  lemma AdmittedLater(s: System, steps: seq<Step>, id: nat, k: nat)
    requires steps != [] && Enabled(s, steps[0]) && Next(s, steps[0]).Some?
    requires Admitted(Next(s, steps[0]).value, steps[1..], id, k)
    ensures Admitted(s, steps, id, k + 1)
  {
    hide Next, Enabled;
    var u :| Execution(Next(s, steps[0]).value, steps[1..][..k], u) && !u.stopped;
    assert steps[..k + 1][1..] == steps[1..][..k];
    assert Execution(s, steps[..k + 1], u);
    forall j | k + 1 < j < |steps|
      ensures !Enters(steps[j], id)
    {
      assert steps[j] == steps[1..][j - 1];
    }
  }

  /**
    Whoever runs the exclusive function in a reachable state was an administrator when it
    entered, its request was not canceled, and the process was not stopped.
    */
  lemma ExclusiveIsAuthorized(steps: seq<Step>, t: System, id: nat)
    requires Execution(INITIAL, steps, t) && In(t, id, Exclusive)
    ensures exists k: nat :: Admitted(INITIAL, steps, id, k)
  {
    hide Next, Enabled, Admitted;
    ExclusiveSince(INITIAL, steps, t, id);
  }

  // ----- One chance per request -----

  /** The lease is gone, and the request is past the point at which it could be waiting for the lock. */
  ghost predicate Spent(s: System, id: nat) {
    && id in s.requests && !s.requests[id].held
    && s.requests[id].phase in {Exclusive, Serving, Closing, Finished}
  }

  lemma SpentStep(s: System, step: Step, id: nat)
    requires Spent(s, id) && Enabled(s, step) && Next(s, step).Some?
    ensures Spent(Next(s, step).value, id) && !Enters(step, id)
  {
  }

  lemma EnterSpends(s: System, step: Step, id: nat)
    requires Safe(s) && Enters(step, id) && Enabled(s, step) && Next(s, step).Some?
    ensures Spent(Next(s, step).value, id)
  {
    assert LeaseOk(s.requests[id]);
  }

  lemma {:induction false} SpentNeverEnters(s: System, steps: seq<Step>, t: System, id: nat)
    requires Spent(s, id) && Execution(s, steps, t)
    ensures forall j :: 0 <= j < |steps| ==> !Enters(steps[j], id)
    decreases |steps|
  {
    hide Next, Enabled, Spent;
    if steps == [] {
    } else {
      SpentStep(s, steps[0], id);
      SpentNeverEnters(Next(s, steps[0]).value, steps[1..], t, id);
      assert forall j :: 0 < j < |steps| ==> steps[j] == steps[1..][j - 1];
    }
  }

  lemma {:induction false} SecondEnter(s: System, steps: seq<Step>, t: System, id: nat, i: nat, j: nat)
    requires Safe(s) && Execution(s, steps, t) && i < j < |steps| && Enters(steps[i], id)
    ensures !Enters(steps[j], id)
    decreases i
  {
    hide Next, Enabled, Spent, Safe;
    StepIsSafe(s, steps[0]);
    var u := Next(s, steps[0]).value;
    assert steps[j] == steps[1..][j - 1];
    if i == 0 {
      EnterSpends(s, steps[0], id);
      SpentNeverEnters(u, steps[1..], t, id);
    } else {
      SecondEnter(u, steps[1..], t, id, i - 1, j - 1);
    }
  }

  /** Maintenance consumes the lease: no request gets to the decision behind the lock twice. */
  lemma MaintenanceOnce(steps: seq<Step>, t: System, id: nat, i: nat, j: nat)
    requires Execution(INITIAL, steps, t) && i < j < |steps| && Enters(steps[i], id)
    ensures !Enters(steps[j], id)
  {
    assert Holders(INITIAL) == {};
    SecondEnter(INITIAL, steps, t, id, i, j);
  }

  // ----- What stops the process -----

  lemma {:induction false} StoppedSince(s: System, steps: seq<Step>, t: System)
    requires Execution(s, steps, t)
    ensures t.stopped <==> s.stopped || exists k :: 0 <= k < |steps| && steps[k].Finish? && steps[k].stop
    decreases |steps|
  {
    hide Enabled;
    if steps == [] {
    } else {
      StoppedSince(Next(s, steps[0]).value, steps[1..], t);
      assert forall j :: 0 < j < |steps| ==> steps[j] == steps[1..][j - 1];
      assert forall j :: 0 <= j < |steps| - 1 ==> steps[1..][j] == steps[j + 1];
    }
  }

  /** The process is stopped exactly when some exclusive function of the run asked for it. */
  lemma StoppedByRequest(steps: seq<Step>, t: System)
    requires Execution(INITIAL, steps, t)
    ensures t.stopped <==> exists k :: 0 <= k < |steps| && steps[k].Finish? && steps[k].stop
  {
    StoppedSince(INITIAL, steps, t);
  }
}
