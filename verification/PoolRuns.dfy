/** Whole runs of the pool: safety over every interleaving, no deadlock, and left alone it comes to rest. */
module PoolRuns {
  import opened PoolMachine
  import opened PoolSafety

  ghost predicate Steps(trace: seq<Pool>) {
    trace != [] && forall i :: 0 <= i < |trace| - 1 ==> Next(trace[i], trace[i + 1])
  }

  /** A run starts with a freshly created pool and takes steps in any order. */
  ghost predicate Run(trace: seq<Pool>) {
    Steps(trace) && Init(trace[0])
  }

  // ---------------------------------------------------------------- safety

  lemma {:induction false} RunInv(trace: seq<Pool>, i: nat)
    requires Run(trace) && i < |trace|
    ensures Inv(trace[i])
  {
    if i == 0 {
      InvStarts(trace[0]);
    } else {
      RunInv(trace, i - 1);
      assert Next(trace[i - 1], trace[i]);
      InvKept(trace[i - 1], trace[i]);
    }
  }

  /** In every reachable state: tasks have been started exactly once each and in the order of acceptance,
      the rest are queued in that order within the capacity, and no wake-up is lost. */
  lemma RunSafe(trace: seq<Pool>, i: nat)
    requires Run(trace) && i < |trace|
    ensures var s := trace[i];
      && RingValid(s) && s.accepted == s.started + Pending(s) && |Pending(s)| <= |s.queue| == |trace[0].queue|
      && multiset(s.started) == s.finished + RunningTasks(s.workers)
      && (forall w :: 0 <= w < |s.workers| && s.workers[w].Parked? ==>
            !s.stopping && s.count <= Total(s.workers, WokenWorker))
      && (forall u :: 0 <= u < |s.submitters| && s.submitters[u].Blocked? ==>
            !s.stopping && s.count + Total(s.submitters, NotifiedSubmitter) >= |s.queue|)
      && (forall w :: 0 <= w < |s.workers| && s.workers[w].Exited? ==> s.stopping && s.count == 0)
  {
    RunInv(trace, i);
    CapacityFixed(trace, i);
  }

  lemma CapacityKept(s: Pool, s': Pool)
    requires RingValid(s) && Next(s, s')
    ensures |s'.queue| == |s.queue|
  {
    QueueRefined(s, s');
  }

  lemma CapacityNext(trace: seq<Pool>, i: nat)
    requires Run(trace) && i + 1 < |trace|
    ensures |trace[i + 1].queue| == |trace[i].queue|
  {
    RunInv(trace, i);
    CapacityKept(trace[i], trace[i + 1]);
  }

  lemma {:induction false} CapacityFixed(trace: seq<Pool>, i: nat)
    requires Run(trace) && i < |trace|
    ensures |trace[i].queue| == |trace[0].queue|
  {
    if i > 0 {
      CapacityFixed(trace, i - 1);
      CapacityNext(trace, i - 1);
    }
  }

  lemma StoppedAcceptsNothing(s: Pool, s': Pool)
    requires s.stopping && Next(s, s')
    ensures s'.stopping && s'.accepted == s.accepted
  {
  }

  /** Once the pool is stopping, it accepts nothing any more. */
  lemma {:induction false} NothingAcceptedAfterStop(trace: seq<Pool>, i: nat, j: nat)
    requires Steps(trace) && i <= j < |trace| && trace[i].stopping
    ensures trace[j].stopping && trace[j].accepted == trace[i].accepted
    decreases j
  {
    if i < j {
      NothingAcceptedAfterStop(trace, i, j - 1);
      assert Next(trace[j - 1], trace[j]);
      StoppedAcceptsNothing(trace[j - 1], trace[j]);
    }
  }

  /** With nothing queued and nothing running, every accepted task has been run to its end. */
  lemma NothingLeft(s: Pool)
    requires Inv(s) && s.count == 0 && forall w :: 0 <= w < |s.workers| ==> !s.workers[w].Running?
    ensures s.started == s.accepted && multiset(s.accepted) == s.finished
  {
    NoneRunning(s.workers);
    assert Pending(s) == [];
  }

  /** When the destroyer has joined every worker, every accepted task has been run to its end. */
  lemma JoinedMeansFinished(s: Pool)
    requires Inv(s) && s.destroyer == Joining(|s.workers|)
    ensures s.count == 0 && s.started == s.accepted && multiset(s.accepted) == s.finished
  {
    assert s.workers[0].Exited?;
    NothingLeft(s);
  }

  // ---------------------------------------------------------------- progress

  lemma SomeSubmitterSignal(us: seq<Submitter>) returns (us': seq<Submitter>)
    ensures SignalSubmitter(us, us')
  {
    us' := us;
    if i :| 0 <= i < |us| && us[i].Blocked? {
      us' := us[i := Notified(us[i].task)];
    }
  }

  lemma SomeWorkerSignal(ws: seq<Worker>) returns (ws': seq<Worker>)
    ensures SignalWorker(ws, ws')
  {
    ws' := ws;
    if i :| 0 <= i < |ws| && ws[i].Parked? {
      ws' := ws[i := Woken];
    }
  }

  /** A worker that is neither parked nor gone can always take a step. */
  lemma WorkerMoves(s: Pool, w: nat) returns (s': Pool)
    requires RingValid(s) && w < |s.workers| && !s.workers[w].Parked? && !s.workers[w].Exited?
    ensures WorkerStep(s, s', w) && PoolStep(s, s')
  {
    if s.workers[w].Running? {
      s' := s.(workers := s.workers[w := Idle], finished := s.finished + multiset{s.workers[w].task});
      assert WorkerFinishes(s, s', w);
    } else if s.count == 0 && s.stopping {
      s' := s.(workers := s.workers[w := Exited]);
      assert WorkerExits(s, s', w);
    } else if s.count == 0 {
      s' := s.(workers := s.workers[w := Parked]);
      assert WorkerParks(s, s', w);
    } else {
      var us := SomeSubmitterSignal(s.submitters);
      var task := s.queue[s.head];
      s' := s.(head := (s.head + 1) % |s.queue|, count := s.count - 1, submitters := us,
               workers := s.workers[w := Running(task)], started := s.started + [task]);
      assert WorkerPops(s, s', w);
    }
    assert WorkerStep(s, s', w);
  }

  lemma SubmitterMoves(s: Pool, u: nat) returns (s': Pool)
    requires RingValid(s) && u < |s.submitters| && CanSubmit(s.submitters[u])
    ensures SubmitterStep(s, s', u) && PoolStep(s, s')
  {
    if s.stopping {
      s' := s.(submitters := s.submitters[u := Returned(false)]);
      assert SubmitterRefused(s, s', u);
    } else if s.count == |s.queue| {
      s' := s.(submitters := s.submitters[u := Blocked(s.submitters[u].task)]);
      assert SubmitterBlocks(s, s', u);
    } else {
      var ws := SomeWorkerSignal(s.workers);
      var task := s.submitters[u].task;
      s' := s.(queue := s.queue[s.tail := task], tail := (s.tail + 1) % |s.queue|, count := s.count + 1,
               workers := ws, submitters := s.submitters[u := Returned(true)], accepted := s.accepted + [task]);
      assert SubmitterPushes(s, s', u);
    }
    assert SubmitterStep(s, s', u);
  }

  /** A non-empty queue always has a worker able to move. */
  lemma QueueIsServed(s: Pool) returns (w: nat, s': Pool)
    requires Inv(s) && s.count > 0
    ensures WorkerStep(s, s', w) && PoolStep(s, s')
  {
    w := 0;
    if s.workers[0].Parked? {
      w := TotalPositive(s.workers, WokenWorker);
    }
    s' := WorkerMoves(s, w);
  }

  /** A submitter that waits for room is never left alone: it, or another thread, can move. */
  lemma BlockedSubmitterIsServed(s: Pool, u: nat) returns (s': Pool)
    requires Inv(s) && u < |s.submitters| && s.submitters[u].Blocked?
    ensures PoolStep(s, s')
  {
    if s.count > 0 {
      var w;
      w, s' := QueueIsServed(s);
    } else {
      var v := TotalPositive(s.submitters, NotifiedSubmitter);
      s' := SubmitterMoves(s, v);
    }
  }

  /** Nothing queued, nothing running, nobody waiting in submit, and shutdown not begun or complete. */
  ghost predicate Quiescent(s: Pool) {
    && s.count == 0
    && (forall w :: 0 <= w < |s.workers| ==> if s.stopping then s.workers[w].Exited? else s.workers[w].Parked?)
    && (forall u :: 0 <= u < |s.submitters| ==> s.submitters[u].Outside? || s.submitters[u].Returned?)
    && (s.stopping ==> s.destroyer == Joining(|s.workers|))
  }

  lemma JoinMoves(s: Pool) returns (s': Pool)
    requires s.destroyer.Joining? && s.destroyer.joined < |s.workers| && s.workers[s.destroyer.joined].Exited?
    ensures PoolStep(s, s')
  {
    s' := s.(destroyer := Joining(s.destroyer.joined + 1));
    assert Joins(s, s');
  }

  /** No deadlock: a pool that cannot move by itself has nothing left to do. */
  lemma NoDeadlock(s: Pool)
    requires Inv(s) && forall s' :: !PoolStep(s, s')
    ensures Quiescent(s)
  {
    forall w | 0 <= w < |s.workers|
      ensures if s.stopping then s.workers[w].Exited? else s.workers[w].Parked?
    {
      if !s.workers[w].Parked? && !s.workers[w].Exited? {
        var s' := WorkerMoves(s, w);
      }
    }
    if s.count > 0 {
      var w, s' := QueueIsServed(s);
    }
    forall u | 0 <= u < |s.submitters| ensures s.submitters[u].Outside? || s.submitters[u].Returned? {
      if CanSubmit(s.submitters[u]) {
        var s' := SubmitterMoves(s, u);
      } else if s.submitters[u].Blocked? {
        var s' := BlockedSubmitterIsServed(s, u);
      }
    }
    if s.stopping && s.destroyer.joined < |s.workers| {
      var s' := JoinMoves(s);
    }
  }

  // ---------------------------------------------------------------- left alone, the pool comes to rest

  ghost function WorkerDebt(w: Worker): nat {
    if w.Running? then 2 else if w.Idle? || w.Woken? then 1 else 0
  }

  ghost function SubmitterDebt(u: Submitter): nat {
    if u.Entering? || u.Notified? then 5 else if u.Blocked? then 4 else 0
  }

  /** How much the pool still has to do before it comes to rest, if nobody calls it. */
  ghost function Debt(s: Pool): int {
    3 * s.count + Total(s.workers, WorkerDebt) + Total(s.submitters, SubmitterDebt)
    + (if s.destroyer.Joining? then |s.workers| - s.destroyer.joined else 0)
  }

  lemma SignalledSubmitters(us: seq<Submitter>, us': seq<Submitter>)
    requires SignalSubmitter(us, us')
    ensures Total(us', SubmitterDebt) <= Total(us, SubmitterDebt) + 1
  {
    if us' != us {
      var i :| 0 <= i < |us| && us[i].Blocked? && us' == us[i := Notified(us[i].task)];
      TotalUpdate(us, i, us'[i], SubmitterDebt);
    }
  }

  lemma SignalledWorkers(ws: seq<Worker>, ws': seq<Worker>)
    requires SignalWorker(ws, ws')
    ensures Total(ws', WorkerDebt) <= Total(ws, WorkerDebt) + 1
  {
    if ws' != ws {
      var i :| 0 <= i < |ws| && ws[i].Parked? && ws' == ws[i := Woken];
      TotalUpdate(ws, i, Woken, WorkerDebt);
    }
  }

  lemma DebtOfPop(s: Pool, s': Pool, w: nat)
    requires WorkerPops(s, s', w)
    ensures Debt(s') < Debt(s)
  {
    SignalledSubmitters(s.submitters, s'.submitters);
    TotalUpdate(s.workers, w, s'.workers[w], WorkerDebt);
  }

  lemma DebtOfWorker(s: Pool, s': Pool, w: nat)
    requires WorkerStep(s, s', w)
    ensures Debt(s') < Debt(s)
  {
    if WorkerPops(s, s', w) {
      DebtOfPop(s, s', w);
    } else {
      TotalUpdate(s.workers, w, s'.workers[w], WorkerDebt);
    }
  }

  lemma DebtOfPush(s: Pool, s': Pool, u: nat)
    requires SubmitterPushes(s, s', u)
    ensures Debt(s') < Debt(s)
  {
    SignalledWorkers(s.workers, s'.workers);
    TotalUpdate(s.submitters, u, Returned(true), SubmitterDebt);
  }

  lemma DebtOfSubmitter(s: Pool, s': Pool, u: nat)
    requires SubmitterStep(s, s', u)
    ensures Debt(s') < Debt(s)
  {
    if SubmitterPushes(s, s', u) {
      DebtOfPush(s, s', u);
    } else {
      TotalUpdate(s.submitters, u, s'.submitters[u], SubmitterDebt);
    }
  }

  /** Every step of the pool brings it nearer to rest, shutdown or not. */
  lemma DebtDecreases(s: Pool, s': Pool)
    requires Inv(s) && PoolStep(s, s')
    ensures Inv(s') && 0 <= Debt(s') < Debt(s)
  {
    InvKept(s, s');
    if w: nat :| WorkerStep(s, s', w) {
      DebtOfWorker(s, s', w);
    } else if u: nat :| SubmitterStep(s, s', u) {
      DebtOfSubmitter(s, s', u);
    } else {
      assert Joins(s, s');
    }
  }

  /** A run in which nobody calls the pool and nobody wakes up unasked. */
  ghost predicate QuietRun(trace: seq<Pool>) {
    trace != [] && Inv(trace[0]) && forall i :: 0 <= i < |trace| - 1 ==> PoolStep(trace[i], trace[i + 1])
  }

  lemma {:induction false} QuietBounded(trace: seq<Pool>, i: nat)
    requires QuietRun(trace) && i < |trace|
    ensures Inv(trace[i]) && 0 <= Debt(trace[i]) && Debt(trace[i]) + i <= Debt(trace[0])
  {
    if i > 0 {
      QuietBounded(trace, i - 1);
      assert PoolStep(trace[i - 1], trace[i]);
      DebtDecreases(trace[i - 1], trace[i]);
    }
  }

  /** Left alone, the pool takes a bounded number of steps, and when it can take no more it is quiescent and every
      accepted task has been run to its end. */
  lemma PoolSettles(trace: seq<Pool>)
    requires QuietRun(trace)
    ensures var last := trace[|trace| - 1];
      && |trace| <= Debt(trace[0]) + 1
      && ((forall s' :: !PoolStep(last, s')) ==> Quiescent(last) && multiset(last.accepted) == last.finished)
  {
    var last := trace[|trace| - 1];
    QuietBounded(trace, |trace| - 1);
    if forall s' :: !PoolStep(last, s') {
      NoDeadlock(last);
      NothingLeft(last);
    }
  }

  lemma OneStepMore(s: Pool, rest: seq<Pool>)
    requires Inv(s) && QuietRun(rest) && PoolStep(s, rest[0])
    ensures QuietRun([s] + rest) && ([s] + rest)[|rest|] == rest[|rest| - 1]
  {
    var trace := [s] + rest;
    forall i | 0 <= i < |trace| - 1 ensures PoolStep(trace[i], trace[i + 1]) {
      assert trace[i + 1] == rest[i] && trace[i] == if i == 0 then s else rest[i - 1];
    }
  }

  /** And it does come to rest: from every reachable state some run ends in quiescence. */
  lemma {:induction false} CanSettle(s: Pool) returns (trace: seq<Pool>)
    requires Inv(s)
    ensures QuietRun(trace) && trace[0] == s && Quiescent(trace[|trace| - 1])
    decreases Debt(s)
  {
    if s' :| PoolStep(s, s') {
      DebtDecreases(s, s');
      var rest := CanSettle(s');
      trace := [s] + rest;
      OneStepMore(s, rest);
    } else {
      trace := [s];
      NoDeadlock(s);
    }
  }

  // ---------------------------------------------------------------- shutdown ends

  /** What can still happen once no more calls are made. */
  ghost predicate UnaskedStep(s: Pool, s': Pool) {
    PoolStep(s, s') || SpuriousStep(s, s')
  }

  lemma NobodyParked(s: Pool, s': Pool)
    requires Awake(s) && s.stopping
    ensures !SpuriousStep(s, s')
  {
  }

  /** A run of a stopping pool without new calls. */
  ghost predicate ShutdownRun(trace: seq<Pool>) {
    && trace != [] && Inv(trace[0]) && trace[0].stopping
    && forall i :: 0 <= i < |trace| - 1 ==> UnaskedStep(trace[i], trace[i + 1])
  }

  /** Once the pool is stopping nobody waits any more, so no wake-up is spurious. */
  lemma {:induction false} ShutdownIsQuiet(trace: seq<Pool>, i: nat)
    requires ShutdownRun(trace) && i < |trace|
    ensures Inv(trace[i]) && trace[i].stopping && forall j :: 0 <= j < i ==> PoolStep(trace[j], trace[j + 1])
  {
    if i > 0 {
      ShutdownIsQuiet(trace, i - 1);
      assert UnaskedStep(trace[i - 1], trace[i]);
      NobodyParked(trace[i - 1], trace[i]);
      InvKept(trace[i - 1], trace[i]);
      StoppedAcceptsNothing(trace[i - 1], trace[i]);
    }
  }

  /** Shutdown terminates: without new calls only so many steps are possible, and when no more are, every worker
      has exited and been joined, the queue is empty and every accepted task has finished. */
  lemma ShutdownEnds(trace: seq<Pool>)
    requires ShutdownRun(trace)
    ensures var last := trace[|trace| - 1];
      && |trace| <= Debt(trace[0]) + 1
      && ((forall s' :: !PoolStep(last, s')) ==>
            && Quiescent(last) && last.destroyer == Joining(|last.workers|)
            && multiset(last.accepted) == last.finished)
  {
    ShutdownIsQuiet(trace, |trace| - 1);
    PoolSettles(trace);
  }
}
