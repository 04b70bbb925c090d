/** The pool object: the critical sections of workers, submitters and the destroyer as methods that
    update its fields in place.  Each is one step of the transition system in PoolMachine. */
module ThreadPool {
  import opened PoolMachine
  import opened PoolSafety
  import opened PoolRuns

  class ThreadPool {
    const queue: array<Task>
    var head: nat
    var tail: nat
    var count: nat
    var stopping: bool
    const workers: array<Worker>
    const submitters: array<Submitter>
    var destroyer: Destroyer
    ghost var accepted: seq<Task>
    ghost var started: seq<Task>
    ghost var finished: multiset<Task>

    ghost function State(): Pool
      reads this, queue, workers, submitters
    {
      Pool(queue[..], head, tail, count, stopping, workers[..], submitters[..], destroyer, accepted, started, finished)
    }

    ghost predicate Valid()
      reads this, queue, workers, submitters
    {
      Inv(State())
    }

    /** Zero workers means one, zero capacity four slots per worker.  `callers` threads may call submit. */
    constructor (workerCount: nat, queueCapacity: nat, callers: nat)
      ensures Init(State()) && Valid()
      ensures workers.Length == (if workerCount == 0 then 1 else workerCount)
      ensures queue.Length == if queueCapacity == 0 then 4 * workers.Length else queueCapacity
      ensures fresh(queue) && fresh(workers) && fresh(submitters) && submitters.Length == callers
    {
      var n := if workerCount == 0 then 1 else workerCount;
      var capacity := if queueCapacity == 0 then n * 4 else queueCapacity;
      queue := new Task[capacity](_ => Task(0, 0));
      workers := new Worker[n](_ => Idle);
      submitters := new Submitter[callers](_ => Outside);
      head, tail, count, stopping, destroyer := 0, 0, 0, false, NotStarted;
      accepted, started, finished := [], [], multiset{};
      new;
      InvStarts(State());
    }

    /** `cond_signal(&not_full)`. */
    method SignalNotFull()
      modifies submitters
      ensures SignalSubmitter(old(submitters[..]), submitters[..])
    {
      if i :| 0 <= i < submitters.Length && submitters[i].Blocked? {
        assert submitters[..][i].Blocked?;
        submitters[i] := Notified(submitters[i].task);
        assert submitters[..] == old(submitters[..])[i := submitters[i]];
      }
    }

    /** `cond_signal(&not_empty)`. */
    method SignalNotEmpty()
      modifies workers
      ensures SignalWorker(old(workers[..]), workers[..])
    {
      if i :| 0 <= i < workers.Length && workers[i].Parked? {
        assert workers[..][i].Parked?;
        workers[i] := Woken;
        assert workers[..] == old(workers[..])[i := Woken];
      }
    }

    /** What a worker does with the mutex held, up to waiting, leaving or going off with a task. */
    method WorkerSection(w: nat)
      requires Valid() && w < workers.Length && CanEnter(workers[w])
      modifies this`head, this`count, this`started, workers, submitters
      ensures Valid() && WorkerStep(old(State()), State(), w)
      ensures workers[w].Running? <==> old(count) > 0
    {
      ghost var before := State();
      if !stopping && count == 0 {
        workers[w] := Parked;
        assert WorkerParks(before, State(), w);
      } else if stopping && count == 0 {
        workers[w] := Exited;
        assert WorkerExits(before, State(), w);
      } else {
        var task := queue[head];
        head := (head + 1) % queue.Length;
        count := count - 1;
        SignalNotFull();
        workers[w] := Running(task);
        started := started + [task];
        assert workers[..] == before.workers[w := Running(task)];
        assert WorkerPops(before, State(), w);
      }
      WorkerStepKept(before, State(), w);
    }

    /** The task a worker ran outside the mutex has returned. */
    method FinishTask(w: nat)
      requires Valid() && w < workers.Length && workers[w].Running?
      modifies this`finished, workers
      ensures Valid() && WorkerFinishes(old(State()), State(), w)
    {
      ghost var before := State();
      finished := finished + multiset{workers[w].task};
      workers[w] := Idle;
      assert WorkerFinishes(before, State(), w);
      WorkerStepKept(before, State(), w);
    }

    /** A thread calls submit. */
    method BeginSubmit(u: nat, task: Task)
      requires Valid() && u < submitters.Length && (submitters[u].Outside? || submitters[u].Returned?)
      modifies submitters
      ensures Valid() && Calls(old(State()), State(), u, task)
      ensures task.routine == 0 ==> submitters[u] == Returned(false)
      ensures task.routine != 0 ==> submitters[u] == Entering(task)
    {
      ghost var before := State();
      if task.routine == 0 {
        submitters[u] := Returned(false);
      } else {
        submitters[u] := Entering(task);
      }
      assert Calls(before, State(), u, task);
      CallKept(before, State(), u, task);
    }

    /** What a submitter does with the mutex held, up to waiting for room or returning. */
    method SubmitSection(u: nat)
      requires Valid() && u < submitters.Length && CanSubmit(submitters[u])
      modifies this`tail, this`count, this`accepted, queue, workers, submitters
      ensures Valid() && SubmitterStep(old(State()), State(), u)
      ensures submitters[u] == Returned(true) <==> !stopping && old(count) < queue.Length
      ensures accepted == old(accepted) + if submitters[u] == Returned(true) then [old(submitters[u].task)] else []
    {
      ghost var before := State();
      if !stopping && count == queue.Length {
        submitters[u] := Blocked(submitters[u].task);
        assert SubmitterBlocks(before, State(), u);
      } else if stopping {
        submitters[u] := Returned(false);
        assert SubmitterRefused(before, State(), u);
      } else {
        var task := submitters[u].task;
        queue[tail] := task;
        tail := (tail + 1) % queue.Length;
        count := count + 1;
        SignalNotEmpty();
        submitters[u] := Returned(true);
        accepted := accepted + [task];
        assert queue[..] == before.queue[before.tail := task];
        assert SubmitterPushes(before, State(), u);
      }
      SubmitterStepKept(before, State(), u);
    }

    /** Destroy: sets `stopping` and wakes everybody. */
    method BeginShutdown()
      requires Valid() && destroyer.NotStarted?
      modifies this`stopping, this`destroyer, workers, submitters
      ensures Valid() && Stops(old(State()), State())
    {
      ghost var before := State();
      stopping := true;
      forall i | 0 <= i < workers.Length {
        workers[i] := if workers[i].Parked? then Woken else workers[i];
      }
      forall i | 0 <= i < submitters.Length {
        submitters[i] := if submitters[i].Blocked? then Notified(submitters[i].task) else submitters[i];
      }
      destroyer := Joining(0);
      assert Stops(before, State());
      StopKept(before, State());
    }

    /** Destroy: joins the next worker once it has left. */
    method JoinNext()
      requires Valid() && destroyer.Joining? && destroyer.joined < workers.Length && workers[destroyer.joined].Exited?
      modifies this`destroyer
      ensures Valid() && Joins(old(State()), State())
      ensures destroyer == Joining(workers.Length) ==> multiset(accepted) == finished && count == 0
    {
      ghost var before := State();
      destroyer := Joining(destroyer.joined + 1);
      JoinKept(before, State());
    }
  }

  lemma WorkerStepKept(s: Pool, s': Pool, w: nat)
    requires Inv(s) && WorkerStep(s, s', w)
    ensures Inv(s')
  {
    assert PoolStep(s, s');
    InvKept(s, s');
  }

  lemma SubmitterStepKept(s: Pool, s': Pool, u: nat)
    requires Inv(s) && SubmitterStep(s, s', u)
    ensures Inv(s')
  {
    assert PoolStep(s, s');
    InvKept(s, s');
  }

  lemma CallKept(s: Pool, s': Pool, u: nat, task: Task)
    requires Inv(s) && Calls(s, s', u, task)
    ensures Inv(s')
  {
    assert CallStep(s, s');
    InvKept(s, s');
  }

  lemma StopKept(s: Pool, s': Pool)
    requires Inv(s) && Stops(s, s')
    ensures Inv(s')
  {
    InvKept(s, s');
  }

  lemma JoinKept(s: Pool, s': Pool)
    requires Inv(s) && Joins(s, s')
    ensures Inv(s')
    ensures s'.destroyer == Joining(|s'.workers|) ==> multiset(s'.accepted) == s'.finished && s'.count == 0
  {
    InvKept(s, s');
    if s'.destroyer == Joining(|s'.workers|) {
      JoinedMeansFinished(s');
    }
  }
}
