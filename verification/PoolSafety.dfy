/** What every reachable state of the pool satisfies, whatever the interleaving. */
module PoolSafety {
  import opened PoolMachine

  // ---------------------------------------------------------------- counting threads

  ghost function Total<T>(xs: seq<T>, weight: T -> nat): nat {
    if xs == [] then 0 else weight(xs[0]) + Total(xs[1..], weight)
  }

  lemma {:induction false} TotalUpdate<T>(xs: seq<T>, i: nat, x: T, weight: T -> nat)
    requires i < |xs|
    ensures Total(xs[i := x], weight) + weight(xs[i]) == Total(xs, weight) + weight(x)
  {
    if i == 0 {
      assert xs[0 := x][1..] == xs[1..];
    } else {
      assert xs[i := x][1..] == xs[1..][i - 1 := x];
      TotalUpdate(xs[1..], i - 1, x, weight);
    }
  }

  lemma {:induction false} TotalPositive<T>(xs: seq<T>, weight: T -> nat) returns (i: nat)
    requires Total(xs, weight) > 0
    ensures i < |xs| && weight(xs[i]) > 0
  {
    if weight(xs[0]) > 0 {
      i := 0;
    } else {
      var j := TotalPositive(xs[1..], weight);
      i := j + 1;
    }
  }

  ghost function WokenWorker(w: Worker): nat { if w.Woken? then 1 else 0 }

  ghost function NotifiedSubmitter(u: Submitter): nat { if u.Notified? then 1 else 0 }

  ghost function TaskOf(w: Worker): multiset<Task> {
    if w.Running? then multiset{w.task} else multiset{}
  }

  ghost function RunningTasks(ws: seq<Worker>): multiset<Task> {
    if ws == [] then multiset{} else TaskOf(ws[0]) + RunningTasks(ws[1..])
  }

  lemma SwapParts(a: multiset<Task>, b: multiset<Task>, c: multiset<Task>)
    ensures (a + b) + c == (c + b) + a
  {
  }

  lemma SwapTails(a: multiset<Task>, b: multiset<Task>, c: multiset<Task>, d: multiset<Task>, e: multiset<Task>)
    requires b + c == d + e
    ensures (a + b) + c == (a + d) + e
  {
    assert (a + b) + c == a + (b + c);
    assert (a + d) + e == a + (d + e);
  }

  lemma {:induction false} RunningUpdate(ws: seq<Worker>, i: nat, w: Worker)
    requires i < |ws|
    ensures RunningTasks(ws[i := w]) + TaskOf(ws[i]) == RunningTasks(ws) + TaskOf(w)
  {
    var rest := RunningTasks(ws[1..]);
    if i == 0 {
      assert ws[0 := w][1..] == ws[1..];
      SwapParts(TaskOf(w), rest, TaskOf(ws[0]));
    } else {
      assert ws[i := w][1..] == ws[1..][i - 1 := w];
      RunningUpdate(ws[1..], i - 1, w);
      SwapTails(TaskOf(ws[0]), RunningTasks(ws[1..][i - 1 := w]), TaskOf(ws[i]), rest, TaskOf(w));
    }
  }

  lemma {:induction false} NoneRunning(ws: seq<Worker>)
    requires forall i :: 0 <= i < |ws| ==> !ws[i].Running?
    ensures RunningTasks(ws) == multiset{}
  {
    if ws != [] {
      NoneRunning(ws[1..]);
    }
  }

  lemma {:induction false} RunningBroadcast(ws: seq<Worker>, ws': seq<Worker>)
    requires BroadcastWorkers(ws, ws')
    ensures RunningTasks(ws') == RunningTasks(ws)
  {
    if ws != [] {
      assert ws'[0] == WakeWorker(ws[0]);
      RunningBroadcast(ws[1..], ws'[1..]);
    }
  }

  // ---------------------------------------------------------------- the invariant, part by part

  /** The ring is a queue: what was accepted is what was started followed by what is queued. */
  ghost predicate InOrder(s: Pool) {
    RingValid(s) && s.accepted == s.started + Pending(s)
  }

  /** Every started task is finished or running. */
  ghost predicate Accounted(s: Pool) {
    multiset(s.started) == s.finished + RunningTasks(s.workers)
  }

  /** No lost wake-up. */
  ghost predicate Awake(s: Pool) {
    && (forall i :: 0 <= i < |s.workers| && s.workers[i].Parked? ==>
          !s.stopping && s.count <= Total(s.workers, WokenWorker))
    && (forall i :: 0 <= i < |s.submitters| && s.submitters[i].Blocked? ==>
          !s.stopping && s.count + Total(s.submitters, NotifiedSubmitter) >= |s.queue|)
  }

  ghost predicate Draining(s: Pool) {
    && s.workers != []
    && (s.stopping <==> s.destroyer.Joining?)
    && (forall i :: 0 <= i < |s.workers| && s.workers[i].Exited? ==> s.stopping && s.count == 0)
    && (s.destroyer.Joining? ==> s.destroyer.joined <= |s.workers|)
    && (s.destroyer.Joining? ==> forall i :: 0 <= i < s.destroyer.joined ==> s.workers[i].Exited?)
  }

  ghost predicate Inv(s: Pool) {
    InOrder(s) && Accounted(s) && Awake(s) && Draining(s)
  }

  // ---------------------------------------------------------------- the ring as a bounded queue

  lemma ModOnce(x: nat, n: nat)
    requires n <= x < 2 * n
    ensures x % n == x - n
  {
    var q := x / n;
    assert x == n * q + x % n;
    assert q >= 2 ==> n * q >= n * 2;
    assert q <= 0 ==> n * q <= 0;
  }

  /** Reducing modulo the capacity is wrapping around once. */
  lemma Wrap(h: nat, i: nat, n: nat)
    requires h < n && i <= n
    ensures (h + i) % n == Slot(h, i, n)
  {
    if h + i >= n {
      ModOnce(h + i, n);
    }
  }

  lemma RingPop(queue: seq<Task>, head: nat, count: nat)
    requires head < |queue| && 0 < count <= |queue|
    ensures var head' := Slot(head, 1, |queue|);
      && Slot(head, count, |queue|) == Slot(head', count - 1, |queue|)
      && Ring(queue, head, count)[0] == queue[head]
      && Ring(queue, head', count - 1) == Ring(queue, head, count)[1..]
  {
  }

  lemma RingPush(queue: seq<Task>, head: nat, count: nat, task: Task)
    requires head < |queue| && count < |queue|
    ensures var tail := Slot(head, count, |queue|);
      && Slot(tail, 1, |queue|) == Slot(head, count + 1, |queue|)
      && Ring(queue[tail := task], head, count + 1) == Ring(queue, head, count) + [task]
  {
  }

  lemma PopTakesOldest(s: Pool, s': Pool, w: nat)
    requires RingValid(s) && WorkerPops(s, s', w)
    ensures RingValid(s') && Pending(s) != [] && s.queue[s.head] == Pending(s)[0] && Pending(s') == Pending(s)[1..]
  {
    RingPop(s.queue, s.head, s.count);
    Wrap(s.head, 1, |s.queue|);
    Wrap(s.head, s.count, |s.queue|);
    Wrap(s'.head, s'.count, |s.queue|);
  }

  lemma PushAppends(s: Pool, s': Pool, u: nat)
    requires RingValid(s) && SubmitterPushes(s, s', u)
    ensures RingValid(s') && Pending(s') == Pending(s) + [s.submitters[u].task]
  {
    RingPush(s.queue, s.head, s.count, s.submitters[u].task);
    Wrap(s.head, s.count, |s.queue|);
    Wrap(s.tail, 1, |s.queue|);
    Wrap(s.head, s'.count, |s.queue|);
  }

  /** Every step is a step of a bounded first-in first-out queue, or leaves that queue alone. */
  lemma QueueRefined(s: Pool, s': Pool)
    requires RingValid(s) && Next(s, s')
    ensures RingValid(s') && |s'.queue| == |s.queue| && |Pending(s')| <= |s'.queue|
    ensures
      || (Pending(s') == Pending(s) && s'.accepted == s.accepted && s'.started == s.started)
      || (Pending(s) != [] && Pending(s') == Pending(s)[1..] && s'.started == s.started + [Pending(s)[0]]
        && s'.accepted == s.accepted)
      || (!s.stopping && |Pending(s)| < |s.queue| && s'.started == s.started && s'.accepted != []
          && var task := s'.accepted[|s'.accepted| - 1];
             Pending(s') == Pending(s) + [task] && s'.accepted == s.accepted + [task])
  {
    if w: nat :| WorkerPops(s, s', w) {
      PopTakesOldest(s, s', w);
    } else if u: nat :| SubmitterPushes(s, s', u) {
      PushAppends(s, s', u);
    } else {
      QueueUntouched(s, s');
    }
  }

  lemma QueueUntouched(s: Pool, s': Pool)
    requires RingValid(s) && Next(s, s')
    requires forall w: nat :: !WorkerPops(s, s', w)
    requires forall u: nat :: !SubmitterPushes(s, s', u)
    ensures s'.queue == s.queue && s'.head == s.head && s'.tail == s.tail && s'.count == s.count
    ensures s'.accepted == s.accepted && s'.started == s.started
  {
  }

  lemma OrderKept(s: Pool, s': Pool)
    requires InOrder(s) && Next(s, s')
    ensures InOrder(s')
  {
    QueueRefined(s, s');
    if |Pending(s')| < |Pending(s)| {
      assert s.started + Pending(s) == s.started + [Pending(s)[0]] + Pending(s)[1..];
    }
  }

  lemma InvStarts(s: Pool)
    requires Init(s)
    ensures Inv(s)
  {
    NoneRunning(s.workers);
  }

  // ---------------------------------------------------------------- running tasks

  lemma RunningSignal(ws: seq<Worker>, ws': seq<Worker>)
    requires SignalWorker(ws, ws')
    ensures RunningTasks(ws') == RunningTasks(ws)
  {
    if i :| 0 <= i < |ws| && ws[i].Parked? && ws' == ws[i := Woken] {
      RunningUpdate(ws, i, Woken);
      Cancelled(RunningTasks(ws'), RunningTasks(ws));
    }
  }

  lemma Cancelled(a: multiset<Task>, b: multiset<Task>)
    requires a + multiset{} == b + multiset{}
    ensures a == b
  {
    assert a + multiset{} == a && b + multiset{} == b;
  }

  /** The books balance after a worker's own state changed from `w` to `w'`. */
  lemma Balanced(started: multiset<Task>, finished: multiset<Task>, running: multiset<Task>, started': multiset<Task>,
                 finished': multiset<Task>, running': multiset<Task>, was: multiset<Task>, now: multiset<Task>)
    requires started == finished + running && running' + was == running + now
    requires started' + was + finished == started + now + finished'
    ensures started' == finished' + running'
  {
    forall x ensures started'[x] == (finished' + running')[x] {
      assert (running' + was)[x] == (running + now)[x];
      assert (started' + was + finished)[x] == (started + now + finished')[x];
    }
  }

  lemma AccountedWorker(s: Pool, s': Pool, w: nat)
    requires Accounted(s) && (WorkerStep(s, s', w) || SpuriousWorker(s, s', w))
    ensures Accounted(s')
  {
    var was, now := TaskOf(s.workers[w]), TaskOf(s'.workers[w]);
    RunningUpdate(s.workers, w, s'.workers[w]);
    StepBooks(s, s', w);
    Balanced(multiset(s.started), s.finished, RunningTasks(s.workers),
             multiset(s'.started), s'.finished, RunningTasks(s'.workers), was, now);
  }

  lemma StepBooks(s: Pool, s': Pool, w: nat)
    requires WorkerStep(s, s', w) || SpuriousWorker(s, s', w)
    ensures s'.workers == s.workers[w := s'.workers[w]]
    ensures multiset(s'.started) + TaskOf(s.workers[w]) + s.finished ==
      multiset(s.started) + TaskOf(s'.workers[w]) + s'.finished
  {
    if WorkerPops(s, s', w) {
      assert multiset(s.started + [s.queue[s.head]]) == multiset(s.started) + multiset{s.queue[s.head]};
    } else if WorkerFinishes(s, s', w) {
      assert s.finished + multiset{s.workers[w].task} == multiset{s.workers[w].task} + s.finished;
    }
  }

  lemma AccountedKept(s: Pool, s': Pool)
    requires Accounted(s) && Next(s, s')
    ensures Accounted(s')
  {
    if w: nat :| WorkerStep(s, s', w) || SpuriousWorker(s, s', w) {
      AccountedWorker(s, s', w);
    } else if u: nat :| SubmitterPushes(s, s', u) {
      RunningSignal(s.workers, s'.workers);
    } else if Stops(s, s') {
      RunningBroadcast(s.workers, s'.workers);
    } else {
      SubmittersOnly(s, s');
    }
  }

  lemma SubmittersOnly(s: Pool, s': Pool)
    requires Next(s, s') && !Stops(s, s')
    requires forall w: nat :: !WorkerStep(s, s', w) && !SpuriousWorker(s, s', w)
    requires forall u: nat :: !SubmitterPushes(s, s', u)
    ensures s'.workers == s.workers && s'.started == s.started && s'.finished == s.finished
  {
  }

  // ---------------------------------------------------------------- wake-ups

  lemma WokenAfterSignal(ws: seq<Worker>, ws': seq<Worker>)
    requires SignalWorker(ws, ws')
    ensures |ws'| == |ws| && forall i :: 0 <= i < |ws| ==> ws'[i] == ws[i] || (ws[i].Parked? && ws'[i].Woken?)
    ensures Total(ws', WokenWorker) >= Total(ws, WokenWorker)
    ensures (exists i :: 0 <= i < |ws'| && ws'[i].Parked?) ==> Total(ws', WokenWorker) == Total(ws, WokenWorker) + 1
  {
    if i :| 0 <= i < |ws| && ws[i].Parked? && ws' == ws[i := Woken] {
      TotalUpdate(ws, i, Woken, WokenWorker);
    }
  }

  lemma NotifiedAfterSignal(us: seq<Submitter>, us': seq<Submitter>)
    requires SignalSubmitter(us, us')
    ensures |us'| == |us| && forall i :: 0 <= i < |us| ==> us'[i] == us[i] || (us[i].Blocked? && us'[i].Notified?)
    ensures Total(us', NotifiedSubmitter) >= Total(us, NotifiedSubmitter)
    ensures (exists i :: 0 <= i < |us'| && us'[i].Blocked?) ==>
      Total(us', NotifiedSubmitter) == Total(us, NotifiedSubmitter) + 1
  {
    if i :| 0 <= i < |us| && us[i].Blocked? && us' == us[i := Notified(us[i].task)] {
      TotalUpdate(us, i, Notified(us[i].task), NotifiedSubmitter);
    }
  }

  lemma AwakeWorker(s: Pool, s': Pool, w: nat)
    requires Awake(s) && (WorkerStep(s, s', w) || SpuriousWorker(s, s', w))
    ensures Awake(s')
  {
    TotalUpdate(s.workers, w, s'.workers[w], WokenWorker);
    if WorkerPops(s, s', w) {
      NotifiedAfterSignal(s.submitters, s'.submitters);
    }
  }

  lemma AwakeSubmitter(s: Pool, s': Pool, u: nat)
    requires Awake(s) && s.count <= |s.queue| && (SubmitterStep(s, s', u) || SpuriousSubmitter(s, s', u))
    ensures Awake(s')
  {
    TotalUpdate(s.submitters, u, s'.submitters[u], NotifiedSubmitter);
    if SubmitterPushes(s, s', u) {
      WokenAfterSignal(s.workers, s'.workers);
    }
  }

  lemma AwakeCaller(s: Pool, s': Pool, u: nat, task: Task)
    requires Awake(s) && Calls(s, s', u, task)
    ensures Awake(s')
  {
    TotalUpdate(s.submitters, u, s'.submitters[u], NotifiedSubmitter);
  }

  lemma AwakeKept(s: Pool, s': Pool)
    requires Awake(s) && s.count <= |s.queue| && Next(s, s')
    ensures Awake(s')
  {
    if w: nat :| WorkerStep(s, s', w) || SpuriousWorker(s, s', w) {
      AwakeWorker(s, s', w);
    } else if u: nat :| SubmitterStep(s, s', u) || SpuriousSubmitter(s, s', u) {
      AwakeSubmitter(s, s', u);
    } else if u: nat, task :| Calls(s, s', u, task) {
      AwakeCaller(s, s', u, task);
    } else if Stops(s, s') {
      assert forall i :: 0 <= i < |s'.workers| ==> !s'.workers[i].Parked?;
      assert forall i :: 0 <= i < |s'.submitters| ==> !s'.submitters[i].Blocked?;
    }
  }

  // ---------------------------------------------------------------- shutdown

  lemma DrainingWorker(s: Pool, s': Pool, w: nat)
    requires Draining(s) && (WorkerStep(s, s', w) || SpuriousWorker(s, s', w))
    ensures Draining(s')
  {
  }

  lemma DrainingKept(s: Pool, s': Pool)
    requires Draining(s) && Next(s, s')
    ensures Draining(s')
  {
    if w: nat :| WorkerStep(s, s', w) || SpuriousWorker(s, s', w) {
      DrainingWorker(s, s', w);
    } else if u: nat :| SubmitterPushes(s, s', u) {
      WokenAfterSignal(s.workers, s'.workers);
    } else if Stops(s, s') {
      assert forall i :: 0 <= i < |s.workers| ==> s'.workers[i] == WakeWorker(s.workers[i]);
    } else if Joins(s, s') {
    } else {
      SubmittersOnly(s, s');
      assert s'.stopping == s.stopping && s'.destroyer == s.destroyer && s'.count == s.count;
    }
  }

  /** Every step keeps the invariant. */
  lemma InvKept(s: Pool, s': Pool)
    requires Inv(s) && Next(s, s')
    ensures Inv(s')
  {
    OrderKept(s, s');
    AccountedKept(s, s');
    AwakeKept(s, s');
    DrainingKept(s, s');
  }
}
