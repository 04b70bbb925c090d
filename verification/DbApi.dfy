/** The API lock: concurrent calls share one engine, each running its statement under the mutex and
    capturing its output privately.  An engine is any step function over shared and private state. */
module DbApi {
  import opened Machine

  /** `start` prepares a statement with an empty capture; `step` runs a little of it against the shared
      state; `result` is what the caller gets once it is `finished`. */
  datatype Engine<!S(!new), !L(!new), !R(!new)> = Engine(
    start: string -> L, step: (S, L) -> (S, L), finished: L -> bool, result: L -> R)

  datatype Call<L, R> = Idle | Waiting(sql: string) | Inside(sql: string, local: L) | Answered(sql: string, answer: R)

  /** One statement that has been run to its end. */
  datatype Commit<R> = Commit(caller: nat, sql: string, answer: R)

  /** `holder` is the caller that has the mutex; `order` records who took it, `log` what was run. */
  datatype Api<S, L, R> = Api(shared: S, holder: Option<nat>, calls: seq<Call<L, R>>, order: seq<nat>,
                              log: seq<Commit<R>>)

  // ---------------------------------------------------------------- running alone

  /** At most `n` steps of a statement, stopping when it is finished. */
  ghost function RunSteps<S(!new), L(!new), R(!new)>(e: Engine<S, L, R>, s: S, l: L, n: nat): (S, L) {
    if n == 0 || e.finished(l) then (s, l)
    else
      var (s', l') := e.step(s, l);
      RunSteps(e, s', l', n - 1)
  }

  /** Run alone from `s`, the statement ends in `s'` with `answer`. */
  ghost predicate Executes<S(!new), L(!new), R(!new)>(e: Engine<S, L, R>, s: S, sql: string, answer: R, s': S) {
    exists n: nat ::
      var (t, l) := RunSteps(e, s, e.start(sql), n);
      t == s' && e.finished(l) && e.result(l) == answer
  }

  /** The statements of `log`, run one by one from `s`, give its answers and end in `s'`. */
  ghost predicate Serial<S(!new), L(!new), R(!new)>(e: Engine<S, L, R>, s: S, log: seq<Commit<R>>, s': S)
    decreases |log|
  {
    if log == [] then s' == s
    else
      var last := log[|log| - 1];
      exists t :: Serial(e, s, log[..|log| - 1], t) && Executes(e, t, last.sql, last.answer, s')
  }

  // ---------------------------------------------------------------- running together

  ghost predicate Init<S(!new), L(!new), R(!new)>(a: Api<S, L, R>, s: S) {
    a.shared == s && a.holder == None && a.order == [] && a.log == []
      && forall i :: 0 <= i < |a.calls| ==> a.calls[i].Idle?
  }

  /** A thread calls `db_api_execute_sql`. */
  ghost predicate Arrives<S(!new), L(!new), R(!new)>(a: Api<S, L, R>, a': Api<S, L, R>, i: nat, sql: string) {
    && i < |a.calls| && (a.calls[i].Idle? || a.calls[i].Answered?)
    && a' == a.(calls := a.calls[i := Waiting(sql)])
  }

  ghost predicate Locks<S(!new), L(!new), R(!new)>(e: Engine<S, L, R>, a: Api<S, L, R>, a': Api<S, L, R>, i: nat) {
    && i < |a.calls| && a.calls[i].Waiting? && a.holder == None
    && a' == a.(holder := Some(i), order := a.order + [i],
                calls := a.calls[i := Inside(a.calls[i].sql, e.start(a.calls[i].sql))])
  }

  ghost predicate Works<S(!new), L(!new), R(!new)>(e: Engine<S, L, R>, a: Api<S, L, R>, a': Api<S, L, R>, i: nat) {
    && i < |a.calls| && a.calls[i].Inside? && !e.finished(a.calls[i].local)
    && var (s, l) := e.step(a.shared, a.calls[i].local);
       a' == a.(shared := s, calls := a.calls[i := Inside(a.calls[i].sql, l)])
  }

  ghost predicate Unlocks<S(!new), L(!new), R(!new)>(e: Engine<S, L, R>, a: Api<S, L, R>, a': Api<S, L, R>, i: nat) {
    && i < |a.calls| && a.calls[i].Inside? && e.finished(a.calls[i].local)
    && var c := a.calls[i];
       a' == a.(holder := None, calls := a.calls[i := Answered(c.sql, e.result(c.local))],
                log := a.log + [Commit(i, c.sql, e.result(c.local))])
  }

  ghost predicate Next<S(!new), L(!new), R(!new)>(e: Engine<S, L, R>, a: Api<S, L, R>, a': Api<S, L, R>) {
    || (exists i: nat, sql :: Arrives(a, a', i, sql))
    || (exists i: nat :: Locks(e, a, a', i))
    || (exists i: nat :: Works(e, a, a', i))
    || (exists i: nat :: Unlocks(e, a, a', i))
  }

  // ---------------------------------------------------------------- the invariant

  /** Only the holder is inside. */
  ghost predicate Exclusive<S, L, R>(a: Api<S, L, R>) {
    && (a.holder.Some? ==> a.holder.value < |a.calls| && a.calls[a.holder.value].Inside?)
    && forall i :: 0 <= i < |a.calls| && a.calls[i].Inside? ==> a.holder == Some(i)
  }

  /** The shared state is what the finished statements leave behind one by one, plus the holder's steps so far. */
  ghost predicate Serialized<S(!new), L(!new), R(!new)>(e: Engine<S, L, R>, s: S, a: Api<S, L, R>) {
    if a.holder == None then Serial(e, s, a.log, a.shared)
    else
      && a.holder.value < |a.calls| && a.calls[a.holder.value].Inside?
      && exists t, n: nat ::
           && Serial(e, s, a.log, t)
           && RunSteps(e, t, e.start(a.calls[a.holder.value].sql), n) == (a.shared, a.calls[a.holder.value].local)
  }

  /** `c` is the last entry of its caller in the log. */
  ghost predicate LastEntry<R(!new)>(log: seq<Commit<R>>, c: Commit<R>) {
    exists k :: 0 <= k < |log| && log[k] == c && forall j :: k < j < |log| ==> log[j].caller != c.caller
  }

  /** Every answer is the one logged for that caller's own latest statement. */
  ghost predicate OwnAnswers<S(!new), L(!new), R(!new)>(a: Api<S, L, R>) {
    forall i :: 0 <= i < |a.calls| && a.calls[i].Answered? ==>
      LastEntry(a.log, Commit(i, a.calls[i].sql, a.calls[i].answer))
  }

  /** The statements are logged in the order in which their callers took the lock. */
  ghost predicate InLockOrder<S(!new), L(!new), R(!new)>(a: Api<S, L, R>) {
    && |a.order| == |a.log| + (if a.holder.Some? then 1 else 0)
    && (forall k :: 0 <= k < |a.log| ==> a.log[k].caller == a.order[k])
    && (a.holder.Some? ==> a.order[|a.log|] == a.holder.value)
  }

  ghost predicate Inv<S(!new), L(!new), R(!new)>(e: Engine<S, L, R>, s: S, a: Api<S, L, R>) {
    Exclusive(a) && Serialized(e, s, a) && OwnAnswers(a) && InLockOrder(a)
  }

  // ---------------------------------------------------------------- running alone is deterministic

  lemma {:induction false} RunMore<S(!new), L(!new), R(!new)>(e: Engine<S, L, R>, s: S, l: L, n: nat)
    requires !e.finished(RunSteps(e, s, l, n).1)
    ensures RunSteps(e, s, l, n + 1) == e.step(RunSteps(e, s, l, n).0, RunSteps(e, s, l, n).1)
  {
    if n > 0 {
      var (s', l') := e.step(s, l);
      RunMore(e, s', l', n - 1);
    }
  }

  lemma {:induction false} RunStops<S(!new), L(!new), R(!new)>(e: Engine<S, L, R>, s: S, l: L, n: nat, m: nat)
    requires e.finished(RunSteps(e, s, l, n).1) && n <= m
    ensures RunSteps(e, s, l, m) == RunSteps(e, s, l, n)
  {
    if n > 0 && !e.finished(l) {
      var (s', l') := e.step(s, l);
      RunStops(e, s', l', n - 1, m - 1);
    }
  }

  lemma ExecutesOne<S(!new), L(!new), R(!new)>(e: Engine<S, L, R>, s: S, sql: string, r: R, t: S, r': R, t': S)
    requires Executes(e, s, sql, r, t) && Executes(e, s, sql, r', t')
    ensures r == r' && t == t'
  {
    var n: nat :| var (x, l) := RunSteps(e, s, e.start(sql), n); x == t && e.finished(l) && e.result(l) == r;
    var m: nat :| var (x, l) := RunSteps(e, s, e.start(sql), m); x == t' && e.finished(l) && e.result(l) == r';
    if n <= m {
      RunStops(e, s, e.start(sql), n, m);
    } else {
      RunStops(e, s, e.start(sql), m, n);
    }
  }

  /** Answers and final state are determined by the statements and their order. */
  lemma {:induction false} SerialOne<S(!new), L(!new), R(!new)>(
      e: Engine<S, L, R>, s: S, log: seq<Commit<R>>, t: S, log': seq<Commit<R>>, t': S)
    requires Serial(e, s, log, t) && Serial(e, s, log', t') && |log| == |log'|
    requires forall k :: 0 <= k < |log| ==> log[k].sql == log'[k].sql
    ensures t == t' && forall k :: 0 <= k < |log| ==> log[k].answer == log'[k].answer
    decreases |log|
  {
    if log != [] {
      var n := |log| - 1;
      var u :| Serial(e, s, log[..n], u) && Executes(e, u, log[n].sql, log[n].answer, t);
      var u' :| Serial(e, s, log'[..n], u') && Executes(e, u', log'[n].sql, log'[n].answer, t');
      SerialOne(e, s, log[..n], u, log'[..n], u');
      ExecutesOne(e, u, log[n].sql, log[n].answer, t, log'[n].answer, t');
    }
  }

  lemma SerialPush<S(!new), L(!new), R(!new)>(e: Engine<S, L, R>, s: S, log: seq<Commit<R>>, t: S, c: Commit<R>, t': S)
    requires Serial(e, s, log, t) && Executes(e, t, c.sql, c.answer, t')
    ensures Serial(e, s, log + [c], t')
  {
    var longer := log + [c];
    assert longer[|longer| - 1] == c && longer[..|longer| - 1] == log;
    assert Serial(e, s, longer[..|longer| - 1], t)
      && Executes(e, t, longer[|longer| - 1].sql, longer[|longer| - 1].answer, t');
  }

  lemma LastEntryPush<R(!new)>(log: seq<Commit<R>>, c: Commit<R>)
    ensures LastEntry(log + [c], c)
    ensures forall d :: LastEntry(log, d) && d.caller != c.caller ==> LastEntry(log + [c], d)
  {
    assert (log + [c])[|log|] == c;
    forall d | LastEntry(log, d) && d.caller != c.caller ensures LastEntry(log + [c], d) {
      var k :| 0 <= k < |log| && log[k] == d && forall j :: k < j < |log| ==> log[j].caller != d.caller;
      assert (log + [c])[k] == d;
    }
  }

  // ---------------------------------------------------------------- every step keeps the invariant

  lemma ArrivesKeeps<S(!new), L(!new), R(!new)>(e: Engine<S, L, R>, s: S, a: Api<S, L, R>, a': Api<S, L, R>, i: nat,
                                                sql: string)
    requires Inv(e, s, a) && Arrives(a, a', i, sql)
    ensures Inv(e, s, a')
  {
  }

  lemma LocksKeeps<S(!new), L(!new), R(!new)>(e: Engine<S, L, R>, s: S, a: Api<S, L, R>, a': Api<S, L, R>, i: nat)
    requires Inv(e, s, a) && Locks(e, a, a', i)
    ensures Inv(e, s, a')
  {
    assert RunSteps(e, a.shared, e.start(a.calls[i].sql), 0) == (a'.shared, a'.calls[i].local);
  }

  lemma WorksKeeps<S(!new), L(!new), R(!new)>(e: Engine<S, L, R>, s: S, a: Api<S, L, R>, a': Api<S, L, R>, i: nat)
    requires Inv(e, s, a) && Works(e, a, a', i)
    ensures Inv(e, s, a')
  {
    var t, n: nat :| Serial(e, s, a.log, t)
      && RunSteps(e, t, e.start(a.calls[i].sql), n) == (a.shared, a.calls[i].local);
    RunMore(e, t, e.start(a.calls[i].sql), n);
    assert RunSteps(e, t, e.start(a'.calls[i].sql), n + 1) == (a'.shared, a'.calls[i].local);
  }

  lemma UnlocksKeeps<S(!new), L(!new), R(!new)>(e: Engine<S, L, R>, s: S, a: Api<S, L, R>, a': Api<S, L, R>, i: nat)
    requires Inv(e, s, a) && Unlocks(e, a, a', i)
    ensures Inv(e, s, a')
  {
    var c := a.calls[i];
    var t, n: nat :| Serial(e, s, a.log, t) && RunSteps(e, t, e.start(c.sql), n) == (a.shared, c.local);
    assert Executes(e, t, c.sql, e.result(c.local), a.shared);
    SerialPush(e, s, a.log, t, Commit(i, c.sql, e.result(c.local)), a.shared);
    LastEntryPush(a.log, Commit(i, c.sql, e.result(c.local)));
  }

  lemma InvKept<S(!new), L(!new), R(!new)>(e: Engine<S, L, R>, s: S, a: Api<S, L, R>, a': Api<S, L, R>)
    requires Inv(e, s, a) && Next(e, a, a')
    ensures Inv(e, s, a')
  {
    if i: nat, sql :| Arrives(a, a', i, sql) {
      ArrivesKeeps(e, s, a, a', i, sql);
    } else if i: nat :| Locks(e, a, a', i) {
      LocksKeeps(e, s, a, a', i);
    } else if i: nat :| Works(e, a, a', i) {
      WorksKeeps(e, s, a, a', i);
    } else if i: nat :| Unlocks(e, a, a', i) {
      UnlocksKeeps(e, s, a, a', i);
    }
  }

  // ---------------------------------------------------------------- runs

  ghost predicate Run<S(!new), L(!new), R(!new)>(e: Engine<S, L, R>, s: S, trace: seq<Api<S, L, R>>) {
    && trace != [] && Init(trace[0], s)
    && forall k :: 0 <= k < |trace| - 1 ==> Next(e, trace[k], trace[k + 1])
  }

  lemma {:induction false} RunInv<S(!new), L(!new), R(!new)>(e: Engine<S, L, R>, s: S, trace: seq<Api<S, L, R>>, k: nat)
    requires Run(e, s, trace) && k < |trace|
    ensures Inv(e, s, trace[k])
  {
    if k > 0 {
      RunInv(e, s, trace, k - 1);
      assert Next(e, trace[k - 1], trace[k]);
      InvKept(e, s, trace[k - 1], trace[k]);
    }
  }

  /** Serializability: whenever the lock is free, the shared state is the one the logged statements leave
      when run one by one in the order of the lock, the answers given are the answers of that run, and
      every caller's answer is the one to its own statement. */
  lemma Serializable<S(!new), L(!new), R(!new)>(e: Engine<S, L, R>, s: S, trace: seq<Api<S, L, R>>, k: nat)
    requires Run(e, s, trace) && k < |trace| && trace[k].holder == None
    ensures var a := trace[k];
      && Serial(e, s, a.log, a.shared)
      && |a.order| == |a.log| && (forall j :: 0 <= j < |a.log| ==> a.log[j].caller == a.order[j])
      && (forall i :: 0 <= i < |a.calls| && a.calls[i].Answered? ==>
            LastEntry(a.log, Commit(i, a.calls[i].sql, a.calls[i].answer)))
  {
    RunInv(e, s, trace, k);
  }
}
