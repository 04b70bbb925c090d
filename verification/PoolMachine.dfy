/** The thread pool as a transition system: one atomic step per critical section.

    A thread that waits on a condition variable is parked; a signal makes one parked thread woken, a
    broadcast all of them; a woken thread goes on once it gets the mutex again.  Parked threads may
    also wake up by themselves. */
module PoolMachine {
  /** What to call and with what; function 0 stands for a null pointer. */
  datatype Task = Task(routine: int, arg: int)

  datatype Worker = Idle | Parked | Woken | Running(task: Task) | Exited

  datatype Submitter =
    | Outside
    | Entering(task: Task)
    | Blocked(task: Task)
    | Notified(task: Task)
    | Returned(accepted: bool)

  /** The thread that destroys the pool: after setting `stopping` it joins the workers in order. */
  datatype Destroyer = NotStarted | Joining(joined: nat)

  /** `queue`, `head`, `tail`, `count` and `stopping` are the pool's fields; `accepted`, `started` and
      `finished` record what has happened so far. */
  datatype Pool = Pool(
    queue: seq<Task>, head: nat, tail: nat, count: nat, stopping: bool,
    workers: seq<Worker>, submitters: seq<Submitter>, destroyer: Destroyer,
    accepted: seq<Task>, started: seq<Task>, finished: multiset<Task>)

  // ---------------------------------------------------------------- the ring

  ghost predicate RingValid(s: Pool) {
    && s.count <= |s.queue| && s.head < |s.queue|
    && s.tail == (s.head + s.count) % |s.queue|
  }

  /** The slot `i` places after slot `h` of a ring of `n` slots. */
  ghost function Slot(h: nat, i: nat, n: nat): (k: nat)
    requires h < n && i <= n
    ensures k < n
  {
    if h + i < n then h + i else h + i - n
  }

  /** `count` slots of a ring, from `head` on. */
  ghost function Ring(queue: seq<Task>, head: nat, count: nat): (q: seq<Task>)
    requires head < |queue| && count <= |queue|
    ensures |q| == count
    ensures forall i :: 0 <= i < count ==> q[i] == queue[Slot(head, i, |queue|)]
  {
    seq(count, i requires 0 <= i < count => queue[Slot(head, i, |queue|)])
  }

  /** The queued tasks, oldest first. */
  ghost function Pending(s: Pool): (q: seq<Task>)
    requires RingValid(s)
    ensures |q| == s.count
  {
    Ring(s.queue, s.head, s.count)
  }

  // ---------------------------------------------------------------- condition variables

  ghost function WakeWorker(w: Worker): Worker {
    if w.Parked? then Woken else w
  }

  ghost function WakeSubmitter(u: Submitter): Submitter {
    if u.Blocked? then Notified(u.task) else u
  }

  /** One parked thread, if there is one, is woken. */
  ghost predicate SignalWorker(ws: seq<Worker>, ws': seq<Worker>) {
    if exists i :: 0 <= i < |ws| && ws[i].Parked?
    then exists i :: 0 <= i < |ws| && ws[i].Parked? && ws' == ws[i := Woken]
    else ws' == ws
  }

  ghost predicate SignalSubmitter(us: seq<Submitter>, us': seq<Submitter>) {
    if exists i :: 0 <= i < |us| && us[i].Blocked?
    then exists i :: 0 <= i < |us| && us[i].Blocked? && us' == us[i := Notified(us[i].task)]
    else us' == us
  }

  ghost predicate BroadcastWorkers(ws: seq<Worker>, ws': seq<Worker>) {
    |ws'| == |ws| && forall i :: 0 <= i < |ws| ==> ws'[i] == WakeWorker(ws[i])
  }

  ghost predicate BroadcastSubmitters(us: seq<Submitter>, us': seq<Submitter>) {
    |us'| == |us| && forall i :: 0 <= i < |us| ==> us'[i] == WakeSubmitter(us[i])
  }

  // ---------------------------------------------------------------- steps

  ghost predicate Init(s: Pool) {
    && s.queue != [] && s.head == s.tail == s.count == 0 && !s.stopping
    && s.workers != [] && (forall i :: 0 <= i < |s.workers| ==> s.workers[i] == Idle)
    && (forall i :: 0 <= i < |s.submitters| ==> s.submitters[i] == Outside)
    && s.destroyer == NotStarted
    && s.accepted == [] && s.started == [] && s.finished == multiset{}
  }

  ghost predicate CanEnter(w: Worker) {
    w.Idle? || w.Woken?
  }

  ghost predicate WorkerParks(s: Pool, s': Pool, w: nat) {
    && w < |s.workers| && CanEnter(s.workers[w]) && !s.stopping && s.count == 0
    && s' == s.(workers := s.workers[w := Parked])
  }

  ghost predicate WorkerExits(s: Pool, s': Pool, w: nat) {
    && w < |s.workers| && CanEnter(s.workers[w]) && s.stopping && s.count == 0
    && s' == s.(workers := s.workers[w := Exited])
  }

  /** Pops the oldest task, signals `not_full` and goes off to run the task. */
  ghost predicate WorkerPops(s: Pool, s': Pool, w: nat) {
    && w < |s.workers| && CanEnter(s.workers[w]) && s.count > 0 && s.head < |s.queue|
    && SignalSubmitter(s.submitters, s'.submitters)
    && var task := s.queue[s.head];
       s' == s.(head := (s.head + 1) % |s.queue|, count := s.count - 1, submitters := s'.submitters,
                workers := s.workers[w := Running(task)], started := s.started + [task])
  }

  ghost predicate WorkerFinishes(s: Pool, s': Pool, w: nat) {
    && w < |s.workers| && s.workers[w].Running?
    && s' == s.(workers := s.workers[w := Idle], finished := s.finished + multiset{s.workers[w].task})
  }

  /** A thread calls submit; a null function is refused before the mutex is even taken. */
  ghost predicate Calls(s: Pool, s': Pool, u: nat, task: Task) {
    && u < |s.submitters| && (s.submitters[u].Outside? || s.submitters[u].Returned?)
    && s' == s.(submitters := s.submitters[u := if task.routine == 0 then Returned(false) else Entering(task)])
  }

  ghost predicate CanSubmit(u: Submitter) {
    u.Entering? || u.Notified?
  }

  ghost predicate SubmitterBlocks(s: Pool, s': Pool, u: nat) {
    && u < |s.submitters| && CanSubmit(s.submitters[u]) && !s.stopping && s.count == |s.queue|
    && s' == s.(submitters := s.submitters[u := Blocked(s.submitters[u].task)])
  }

  ghost predicate SubmitterRefused(s: Pool, s': Pool, u: nat) {
    && u < |s.submitters| && CanSubmit(s.submitters[u]) && s.stopping
    && s' == s.(submitters := s.submitters[u := Returned(false)])
  }

  /** Pushes the task, signals `not_empty` and returns success. */
  ghost predicate SubmitterPushes(s: Pool, s': Pool, u: nat) {
    && u < |s.submitters| && CanSubmit(s.submitters[u]) && !s.stopping && s.count != |s.queue| && s.tail < |s.queue|
    && SignalWorker(s.workers, s'.workers)
    && var task := s.submitters[u].task;
       s' == s.(queue := s.queue[s.tail := task], tail := (s.tail + 1) % |s.queue|, count := s.count + 1,
                workers := s'.workers, submitters := s.submitters[u := Returned(true)], accepted := s.accepted + [task])
  }

  ghost predicate SpuriousWorker(s: Pool, s': Pool, w: nat) {
    w < |s.workers| && s.workers[w].Parked? && s' == s.(workers := s.workers[w := Woken])
  }

  ghost predicate SpuriousSubmitter(s: Pool, s': Pool, u: nat) {
    && u < |s.submitters| && s.submitters[u].Blocked?
    && s' == s.(submitters := s.submitters[u := Notified(s.submitters[u].task)])
  }

  ghost predicate Stops(s: Pool, s': Pool) {
    && s.destroyer.NotStarted?
    && BroadcastWorkers(s.workers, s'.workers) && BroadcastSubmitters(s.submitters, s'.submitters)
    && s' == s.(stopping := true, workers := s'.workers, submitters := s'.submitters, destroyer := Joining(0))
  }

  ghost predicate Joins(s: Pool, s': Pool) {
    && s.destroyer.Joining? && s.destroyer.joined < |s.workers| && s.workers[s.destroyer.joined].Exited?
    && s' == s.(destroyer := Joining(s.destroyer.joined + 1))
  }

  ghost predicate WorkerStep(s: Pool, s': Pool, w: nat) {
    WorkerParks(s, s', w) || WorkerExits(s, s', w) || WorkerPops(s, s', w) || WorkerFinishes(s, s', w)
  }

  ghost predicate SubmitterStep(s: Pool, s': Pool, u: nat) {
    SubmitterBlocks(s, s', u) || SubmitterRefused(s, s', u) || SubmitterPushes(s, s', u)
  }

  /** What the pool does by itself once called. */
  ghost predicate PoolStep(s: Pool, s': Pool) {
    (exists w: nat :: WorkerStep(s, s', w)) || (exists u: nat :: SubmitterStep(s, s', u)) || Joins(s, s')
  }

  /** Wake-ups nobody asked for. */
  ghost predicate SpuriousStep(s: Pool, s': Pool) {
    (exists w: nat :: SpuriousWorker(s, s', w)) || (exists u: nat :: SpuriousSubmitter(s, s', u))
  }

  /** What the surrounding program does: new submit calls and the destroy call. */
  ghost predicate CallStep(s: Pool, s': Pool) {
    (exists u: nat, task :: Calls(s, s', u, task)) || Stops(s, s')
  }

  ghost predicate Next(s: Pool, s': Pool) {
    PoolStep(s, s') || SpuriousStep(s, s') || CallStep(s, s')
  }
}
