/** What becomes of a call to submit: the task it brings, and the answer it gets. */
module PoolSubmits {
  import opened PoolMachine
  import opened PoolSafety
  import opened PoolRuns

  /** A thread is inside submit from the call to the return. */
  ghost predicate Inside(u: Submitter) {
    u.Entering? || u.Blocked? || u.Notified?
  }

  ghost function TaskAsked(u: Submitter): multiset<Task> {
    if Inside(u) then multiset{u.task} else multiset{}
  }

  /** The tasks that threads inside submit have brought. */
  ghost function Asked(us: seq<Submitter>): multiset<Task> {
    if us == [] then multiset{} else TaskAsked(us[0]) + Asked(us[1..])
  }

  /** What has been accepted, and what is asked for. */
  ghost function Ledger(s: Pool): multiset<Task> {
    multiset(s.accepted) + Asked(s.submitters)
  }

  lemma {:induction false} AskedUpdate(us: seq<Submitter>, i: nat, u: Submitter)
    requires i < |us|
    ensures Asked(us[i := u]) + TaskAsked(us[i]) == Asked(us) + TaskAsked(u)
  {
    var rest := Asked(us[1..]);
    if i == 0 {
      assert us[0 := u][1..] == us[1..];
      SwapParts(TaskAsked(u), rest, TaskAsked(us[0]));
    } else {
      assert us[i := u][1..] == us[1..][i - 1 := u];
      AskedUpdate(us[1..], i - 1, u);
      SwapTails(TaskAsked(us[0]), Asked(us[1..][i - 1 := u]), TaskAsked(us[i]), rest, TaskAsked(u));
    }
  }

  lemma {:induction false} NobodyAsks(us: seq<Submitter>)
    requires forall i :: 0 <= i < |us| ==> !Inside(us[i])
    ensures Asked(us) == multiset{}
  {
    if us != [] {
      NobodyAsks(us[1..]);
    }
  }

  lemma Dropped(a: multiset<Task>, b: multiset<Task>, x: multiset<Task>)
    requires a + x == b + x
    ensures a == b
  {
    forall t ensures a[t] == b[t] {
      assert (a + x)[t] == (b + x)[t];
    }
  }

  /** Waking a thread changes nothing about what it asks for. */
  lemma AskedSame(us: seq<Submitter>, i: nat, u: Submitter)
    requires i < |us| && TaskAsked(u) == TaskAsked(us[i])
    ensures Asked(us[i := u]) == Asked(us)
  {
    AskedUpdate(us, i, u);
    Dropped(Asked(us[i := u]), Asked(us), TaskAsked(u));
  }

  lemma AskedSignal(us: seq<Submitter>, us': seq<Submitter>)
    requires SignalSubmitter(us, us')
    ensures Asked(us') == Asked(us)
  {
    if i :| 0 <= i < |us| && us[i].Blocked? && us' == us[i := Notified(us[i].task)] {
      AskedSame(us, i, us'[i]);
    }
  }

  lemma Moved(a: multiset<Task>, asked: multiset<Task>, asked': multiset<Task>, x: multiset<Task>)
    requires asked' + x == asked + multiset{}
    ensures (a + x) + asked' == a + asked
  {
    assert asked + multiset{} == asked;
    assert (a + x) + asked' == a + (asked' + x);
  }

  lemma LedgerOfPush(s: Pool, s': Pool, u: nat)
    requires SubmitterPushes(s, s', u)
    ensures Ledger(s') == Ledger(s)
  {
    var task := s.submitters[u].task;
    AskedUpdate(s.submitters, u, Returned(true));
    assert multiset(s.accepted + [task]) == multiset(s.accepted) + multiset{task};
    Moved(multiset(s.accepted), Asked(s.submitters), Asked(s'.submitters), multiset{task});
  }

  /** While the pool is not stopping, no step of it loses a task or makes one up. */
  lemma LedgerKept(s: Pool, s': Pool)
    requires PoolStep(s, s') && !s.stopping
    ensures Ledger(s') == Ledger(s) && !s'.stopping
  {
    if w: nat :| WorkerPops(s, s', w) {
      AskedSignal(s.submitters, s'.submitters);
    } else if u: nat :| SubmitterPushes(s, s', u) {
      LedgerOfPush(s, s', u);
    } else if u: nat :| SubmitterBlocks(s, s', u) {
      AskedSame(s.submitters, u, Blocked(s.submitters[u].task));
    } else {
      assert s'.submitters == s.submitters && s'.accepted == s.accepted;
    }
  }

  /** The thread is still inside with its task, or it has been told that the task was accepted. */
  ghost predicate Granted(u: Submitter, task: Task) {
    if Inside(u) then u.task == task else u == Returned(true)
  }

  lemma GrantedKept(s: Pool, s': Pool, u: nat, task: Task)
    requires PoolStep(s, s') && !s.stopping && u < |s.submitters| && Granted(s.submitters[u], task)
    ensures u < |s'.submitters| && Granted(s'.submitters[u], task)
  {
    if w: nat :| WorkerPops(s, s', w) {
      NotifiedAfterSignal(s.submitters, s'.submitters);
    }
  }

  lemma ReturnedKept(s: Pool, s': Pool, u: nat)
    requires PoolStep(s, s') && u < |s.submitters| && s.submitters[u].Returned?
    ensures u < |s'.submitters| && s'.submitters[u] == s.submitters[u]
  {
    if w: nat :| WorkerPops(s, s', w) {
      NotifiedAfterSignal(s.submitters, s'.submitters);
    }
  }

  /** The thread is still inside, or it has been refused. */
  ghost predicate Denied(u: Submitter) {
    Inside(u) || u == Returned(false)
  }

  lemma DeniedKept(s: Pool, s': Pool, u: nat)
    requires PoolStep(s, s') && s.stopping && u < |s.submitters| && Denied(s.submitters[u])
    ensures u < |s'.submitters| && Denied(s'.submitters[u])
  {
    if w: nat :| WorkerPops(s, s', w) {
      NotifiedAfterSignal(s.submitters, s'.submitters);
    }
  }

  // ---------------------------------------------------------------- over quiet runs

  lemma {:induction false} LedgerOverRun(trace: seq<Pool>, i: nat)
    requires QuietRun(trace) && i < |trace| && !trace[0].stopping
    ensures Ledger(trace[i]) == Ledger(trace[0]) && !trace[i].stopping
  {
    if i > 0 {
      LedgerOverRun(trace, i - 1);
      assert PoolStep(trace[i - 1], trace[i]);
      LedgerKept(trace[i - 1], trace[i]);
    }
  }

  lemma {:induction false} GrantedOverRun(trace: seq<Pool>, i: nat, u: nat, task: Task)
    requires QuietRun(trace) && i < |trace| && !trace[0].stopping
    requires u < |trace[0].submitters| && Granted(trace[0].submitters[u], task)
    ensures u < |trace[i].submitters| && Granted(trace[i].submitters[u], task)
  {
    if i > 0 {
      GrantedOverRun(trace, i - 1, u, task);
      LedgerOverRun(trace, i - 1);
      assert PoolStep(trace[i - 1], trace[i]);
      GrantedKept(trace[i - 1], trace[i], u, task);
    }
  }

  lemma {:induction false} ReturnedOverRun(trace: seq<Pool>, i: nat, u: nat)
    requires QuietRun(trace) && i < |trace|
    requires u < |trace[0].submitters| && trace[0].submitters[u].Returned?
    ensures u < |trace[i].submitters| && trace[i].submitters[u] == trace[0].submitters[u]
  {
    if i > 0 {
      ReturnedOverRun(trace, i - 1, u);
      assert PoolStep(trace[i - 1], trace[i]);
      ReturnedKept(trace[i - 1], trace[i], u);
    }
  }

  lemma {:induction false} DeniedOverRun(trace: seq<Pool>, i: nat, u: nat)
    requires QuietRun(trace) && i < |trace| && trace[0].stopping
    requires u < |trace[0].submitters| && Denied(trace[0].submitters[u])
    ensures u < |trace[i].submitters| && Denied(trace[i].submitters[u])
    ensures trace[i].stopping && trace[i].accepted == trace[0].accepted
  {
    if i > 0 {
      DeniedOverRun(trace, i - 1, u);
      assert PoolStep(trace[i - 1], trace[i]);
      DeniedKept(trace[i - 1], trace[i], u);
      StoppedAcceptsNothing(trace[i - 1], trace[i]);
    }
  }

  ghost predicate Stuck(s: Pool) {
    forall s' :: !PoolStep(s, s')
  }

  /** The pool has come to rest at the end of a run in which nobody called it. */
  ghost predicate Rests(trace: seq<Pool>) {
    QuietRun(trace) && Stuck(trace[|trace| - 1])
  }

  lemma {:induction false} RestsQuiescent(trace: seq<Pool>)
    requires Rests(trace)
    ensures Quiescent(trace[|trace| - 1]) && multiset(trace[|trace| - 1].accepted) == trace[|trace| - 1].finished
  {
    PoolSettles(trace);
  }

  /** At rest everything that was asked for has been accepted and run. */
  lemma {:induction false} AllAskedAccepted(trace: seq<Pool>)
    requires Rests(trace) && !trace[0].stopping
    ensures multiset(trace[|trace| - 1].accepted) == trace[|trace| - 1].finished == Ledger(trace[0])
  {
    var last := trace[|trace| - 1];
    RestsQuiescent(trace);
    LedgerOverRun(trace, |trace| - 1);
    NobodyAsks(last.submitters);
    assert multiset(last.accepted) + multiset{} == multiset(last.accepted);
  }

  lemma CallAsks(s: Pool, s': Pool, u: nat, task: Task)
    requires Calls(s, s', u, task)
    ensures Ledger(s') == Ledger(s) + if task.routine != 0 then multiset{task} else multiset{}
    ensures s'.stopping == s.stopping && s'.accepted == s.accepted && u < |s'.submitters|
    ensures if task.routine != 0 then s'.submitters[u] == Entering(task) else s'.submitters[u] == Returned(false)
  {
    AskedUpdate(s.submitters, u, s'.submitters[u]);
    var asked, asked' := Asked(s.submitters), Asked(s'.submitters);
    assert asked' + multiset{} == asked';
    assert multiset(s.accepted) + (asked + TaskAsked(s'.submitters[u]))
      == multiset(s.accepted) + asked + TaskAsked(s'.submitters[u]);
  }

  /** The answer a submit call gets once the pool has come to rest: success exactly for a task with a function that
      was brought to a pool not stopping. */
  lemma {:induction false} SubmitAnswered(s: Pool, u: nat, task: Task, trace: seq<Pool>)
    requires Rests(trace) && Calls(s, trace[0], u, task)
    ensures var last := trace[|trace| - 1];
      u < |last.submitters| && last.submitters[u] == Returned(task.routine != 0 && !s.stopping)
  {
    CallAsks(s, trace[0], u, task);
    RestsQuiescent(trace);
    if task.routine == 0 {
      ReturnedOverRun(trace, |trace| - 1, u);
    } else if s.stopping {
      DeniedOverRun(trace, |trace| - 1, u);
    } else {
      GrantedOverRun(trace, |trace| - 1, u, task);
    }
  }

  /** What one submit call changes: of two pools that start alike and come to rest, the one that was called has
      accepted and run the task once more if it has a function and the
      pool is not stopping, and the same tasks otherwise. */
  lemma {:induction false} SubmitAddsTask(s: Pool, u: nat, task: Task, called: seq<Pool>, alone: seq<Pool>)
    requires Rests(called) && Calls(s, called[0], u, task)
    requires Rests(alone) && alone[0] == s
    ensures var with, without := called[|called| - 1], alone[|alone| - 1];
      && multiset(with.accepted) == multiset(without.accepted) +
           (if task.routine != 0 && !s.stopping then multiset{task} else multiset{})
      && with.finished == multiset(with.accepted) && without.finished == multiset(without.accepted)
  {
    CallAsks(s, called[0], u, task);
    RestsQuiescent(called);
    RestsQuiescent(alone);
    if s.stopping {
      NothingAcceptedOverRun(called, |called| - 1);
      NothingAcceptedOverRun(alone, |alone| - 1);
      var all := multiset(alone[|alone| - 1].accepted);
      assert all + multiset{} == all;
    } else {
      AllAskedAccepted(called);
      AllAskedAccepted(alone);
    }
  }

  lemma {:induction false} NothingAcceptedOverRun(trace: seq<Pool>, i: nat)
    requires QuietRun(trace) && i < |trace| && trace[0].stopping
    ensures trace[i].stopping && trace[i].accepted == trace[0].accepted
  {
    if i > 0 {
      NothingAcceptedOverRun(trace, i - 1);
      assert PoolStep(trace[i - 1], trace[i]);
      StoppedAcceptsNothing(trace[i - 1], trace[i]);
    }
  }

  // ---------------------------------------------------------------- over all runs

  ghost predicate InsideAt(s: Pool, u: nat) {
    u < |s.submitters| && Inside(s.submitters[u])
  }

  lemma BroadcastKeepsTask(us: seq<Submitter>, us': seq<Submitter>, u: nat)
    requires BroadcastSubmitters(us, us') && u < |us| && Inside(us[u])
    ensures Inside(us'[u]) && us'[u].task == us[u].task
  {
    assert us'[u] == WakeSubmitter(us[u]);
  }

  /** A thread inside submit stays inside with its task, or it is the one that makes this step, and returns. */
  lemma InsideStep(s: Pool, s': Pool, u: nat)
    requires Next(s, s') && InsideAt(s, u)
    ensures u < |s'.submitters|
    ensures var task := s.submitters[u].task;
      || (Inside(s'.submitters[u]) && s'.submitters[u].task == task)
      || (!s.stopping && s'.submitters[u] == Returned(true) && s'.accepted == s.accepted + [task])
      || (s.stopping && s'.submitters[u] == Returned(false) && s'.accepted == s.accepted)
  {
    if w: nat :| WorkerPops(s, s', w) {
      NotifiedAfterSignal(s.submitters, s'.submitters);
    } else if Stops(s, s') {
      BroadcastKeepsTask(s.submitters, s'.submitters, u);
    }
  }

  lemma {:induction false} InsideWithTask(trace: seq<Pool>, i: nat, u: nat, task: Task)
    requires Steps(trace) && 1 <= i < |trace| && Calls(trace[0], trace[1], u, task) && task.routine != 0
    requires forall k :: 1 <= k <= i ==> InsideAt(trace[k], u)
    ensures InsideAt(trace[i], u) && trace[i].submitters[u].task == task
  {
    if i > 1 {
      InsideWithTask(trace, i - 1, u, task);
      assert Next(trace[i - 1], trace[i]) && InsideAt(trace[i - 1], u) && InsideAt(trace[i], u);
      InsideStep(trace[i - 1], trace[i], u);
    }
  }

  /** In any interleaving: a submit call that returns true has just had its own task accepted, last in the order,
      and one that returns false finds the pool stopping and has had nothing accepted. */
  lemma {:induction false} AnswerIsTrue(trace: seq<Pool>, u: nat, task: Task)
    requires Steps(trace) && |trace| > 2 && Calls(trace[0], trace[1], u, task) && task.routine != 0
    requires forall k :: 1 <= k < |trace| - 1 ==> InsideAt(trace[k], u)
    requires !InsideAt(trace[|trace| - 1], u)
    ensures var before, last := trace[|trace| - 2], trace[|trace| - 1];
      && u < |last.submitters|
      && last.submitters[u] == Returned(!before.stopping)
      && last.accepted == before.accepted + if before.stopping then [] else [task]
  {
    var i := |trace| - 2;
    InsideWithTask(trace, i, u, task);
    assert Next(trace[i], trace[i + 1]) && InsideAt(trace[i], u);
    InsideStep(trace[i], trace[i + 1], u);
    assert trace[i].accepted + [] == trace[i].accepted;
  }
}
