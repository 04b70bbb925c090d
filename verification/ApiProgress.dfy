/** What becomes of a call to the API: it gets the lock, its statement is run to the end, and it is answered. */
module ApiProgress {
  import opened Machine
  import opened DbApi

  /** What callers inside the API do; new calls are not among it. */
  ghost predicate InnerStep<S(!new), L(!new), R(!new)>(e: Engine<S, L, R>, a: Api<S, L, R>, a': Api<S, L, R>) {
    || (exists i: nat :: Locks(e, a, a', i))
    || (exists i: nat :: Works(e, a, a', i))
    || (exists i: nat :: Unlocks(e, a, a', i))
  }

  ghost predicate AtRest<S(!new), L(!new), R(!new)>(e: Engine<S, L, R>, a: Api<S, L, R>) {
    forall a' :: !InnerStep(e, a, a')
  }

  ghost predicate Moves<S(!new), L(!new), R(!new)>(e: Engine<S, L, R>, a: Api<S, L, R>, a': Api<S, L, R>) {
    forall b {:trigger Shut(b)} :: Shut(b) ==> InnerStep(e, a, a')
  }

  /** `n` such steps lead from `a` to `b`. */
  ghost predicate Leads<S(!new), L(!new), R(!new)>(e: Engine<S, L, R>, a: Api<S, L, R>, b: Api<S, L, R>, n: nat)
    decreases n
  {
    if n == 0 then a == b else exists m :: Moves(e, a, m) && Leads(e, m, b, n - 1)
  }

  /** The caller asks for this statement: it is waiting, inside, or has been answered. */
  ghost predicate Asks<L, R>(c: Call<L, R>, sql: string) {
    !c.Idle? && c.sql == sql
  }

  lemma InnerIsNext<S(!new), L(!new), R(!new)>(e: Engine<S, L, R>, a: Api<S, L, R>, a': Api<S, L, R>)
    requires InnerStep(e, a, a')
    ensures Next(e, a, a')
  {
  }

  /** No step takes a statement from its caller or changes it. */
  lemma AsksKept<S(!new), L(!new), R(!new)>(e: Engine<S, L, R>, a: Api<S, L, R>, a': Api<S, L, R>, i: nat, sql: string)
    requires Moves(e, a, a') && i < |a.calls| && Asks(a.calls[i], sql)
    ensures i < |a'.calls| && Asks(a'.calls[i], sql)
  {
    assert Shut(true);
  }

  lemma InnerKeeps<S(!new), L(!new), R(!new)>(e: Engine<S, L, R>, s: S, a: Api<S, L, R>, a': Api<S, L, R>)
    requires Inv(e, s, a) && Moves(e, a, a')
    ensures Inv(e, s, a')
  {
    assert Shut(true);
    InnerIsNext(e, a, a');
    InvKept(e, s, a, a');
  }

  lemma {:induction false} LeadsKeeps<S(!new), L(!new), R(!new)>(e: Engine<S, L, R>, s: S, a: Api<S, L, R>,
                                                                 b: Api<S, L, R>, n: nat)
    requires Inv(e, s, a) && Leads(e, a, b, n)
    ensures Inv(e, s, b)
    decreases n
  {
    if n > 0 {
      var m :| Moves(e, a, m) && Leads(e, m, b, n - 1);
      InnerKeeps(e, s, a, m);
      LeadsKeeps(e, s, m, b, n - 1);
    }
  }

  lemma {:induction false} LeadsAsks<S(!new), L(!new), R(!new)>(e: Engine<S, L, R>, a: Api<S, L, R>, b: Api<S, L, R>,
                                                                n: nat, i: nat, sql: string)
    requires Leads(e, a, b, n) && i < |a.calls| && Asks(a.calls[i], sql)
    ensures i < |b.calls| && Asks(b.calls[i], sql)
    decreases n
  {
    if n > 0 {
      var m :| Moves(e, a, m) && Leads(e, m, b, n - 1);
      AsksKept(e, a, m, i, sql);
      LeadsAsks(e, m, b, n - 1, i, sql);
    }
  }

  // ---------------------------------------------------------------- no deadlock

  lemma HolderMoves<S(!new), L(!new), R(!new)>(e: Engine<S, L, R>, a: Api<S, L, R>) returns (a': Api<S, L, R>)
    requires Exclusive(a) && a.holder.Some?
    ensures InnerStep(e, a, a')
  {
    var i := a.holder.value;
    var c := a.calls[i];
    if e.finished(c.local) {
      a' := a.(holder := None, calls := a.calls[i := Answered(c.sql, e.result(c.local))],
               log := a.log + [Commit(i, c.sql, e.result(c.local))]);
      assert Unlocks(e, a, a', i);
    } else {
      var (s, l) := e.step(a.shared, c.local);
      a' := a.(shared := s, calls := a.calls[i := Inside(c.sql, l)]);
      assert Works(e, a, a', i);
    }
  }

  lemma WaiterMoves<S(!new), L(!new), R(!new)>(e: Engine<S, L, R>, a: Api<S, L, R>, i: nat) returns (a': Api<S, L, R>)
    requires a.holder == None && i < |a.calls| && a.calls[i].Waiting?
    ensures InnerStep(e, a, a') && Locks(e, a, a', i)
  {
    a' := a.(holder := Some(i), order := a.order + [i],
             calls := a.calls[i := Inside(a.calls[i].sql, e.start(a.calls[i].sql))]);
    assert Locks(e, a, a', i);
  }

  /** No deadlock: when nothing can happen inside the API any more, nobody is inside and the lock is free. */
  lemma NobodyLeft<S(!new), L(!new), R(!new)>(e: Engine<S, L, R>, a: Api<S, L, R>)
    requires Exclusive(a) && AtRest(e, a)
    ensures a.holder == None && forall i :: 0 <= i < |a.calls| ==> a.calls[i].Idle? || a.calls[i].Answered?
  {
    if a.holder.Some? {
      var a' := HolderMoves(e, a);
    }
    forall i | 0 <= i < |a.calls| ensures a.calls[i].Idle? || a.calls[i].Answered? {
      if a.calls[i].Waiting? && a.holder == None {
        var a' := WaiterMoves(e, a, i);
      }
    }
  }

  /** A call is answered: when the API has come to rest after it, its caller has the answer that was logged for the
      statement it asked, and the log is a serial run. */
  lemma CallAnswered<S(!new), L(!new), R(!new)>(e: Engine<S, L, R>, s: S, a: Api<S, L, R>, a': Api<S, L, R>, i: nat,
                                                sql: string, b: Api<S, L, R>, n: nat)
    requires Inv(e, s, a) && Arrives(a, a', i, sql) && Leads(e, a', b, n) && AtRest(e, b)
    ensures i < |b.calls| && b.calls[i].Answered? && b.calls[i].sql == sql
    ensures LastEntry(b.log, Commit(i, sql, b.calls[i].answer)) && Serial(e, s, b.log, b.shared)
  {
    ArrivesKeeps(e, s, a, a', i, sql);
    LeadsKeeps(e, s, a', b, n);
    LeadsAsks(e, a', b, n, i, sql);
    NobodyLeft(e, b);
  }

  // ---------------------------------------------------------------- it does come to rest

  /** Run alone from `s`, the statement ends. */
  ghost predicate Ends<S(!new), L(!new), R(!new)>(e: Engine<S, L, R>, s: S, sql: string) {
    exists n: nat :: e.finished(RunSteps(e, s, e.start(sql), n).1)
  }

  /** Every statement ends when it is run alone. */
  ghost predicate AlwaysEnds<S(!new), L(!new), R(!new)>(e: Engine<S, L, R>) {
    forall s, sql :: Ends(e, s, sql)
  }

  lemma {:induction false} RunSplit<S(!new), L(!new), R(!new)>(e: Engine<S, L, R>, s: S, l: L, n: nat, k: nat)
    ensures RunSteps(e, s, l, n + k) == RunSteps(e, RunSteps(e, s, l, n).0, RunSteps(e, s, l, n).1, k)
  {
    if n > 0 && !e.finished(l) {
      var (s', l') := e.step(s, l);
      RunSplit(e, s', l', n - 1, k);
    }
  }

  /** So the statement of whoever has the lock ends after some more steps. */
  lemma HolderEnds<S(!new), L(!new), R(!new)>(e: Engine<S, L, R>, s: S, a: Api<S, L, R>) returns (k: nat)
    requires Inv(e, s, a) && a.holder.Some? && AlwaysEnds(e)
    ensures e.finished(RunSteps(e, a.shared, a.calls[a.holder.value].local, k).1)
  {
    var c := a.calls[a.holder.value];
    var t, n: nat :| Serial(e, s, a.log, t) && RunSteps(e, t, e.start(c.sql), n) == (a.shared, c.local);
    assert Ends(e, t, c.sql);
    var m: nat :| e.finished(RunSteps(e, t, e.start(c.sql), m).1);
    if m <= n {
      RunStops(e, t, e.start(c.sql), m, n);
      k := 0;
    } else {
      RunSplit(e, t, e.start(c.sql), n, m - n);
      k := m - n;
    }
  }

  ghost predicate Busy<L, R>(c: Call<L, R>) {
    c.Waiting? || c.Inside?
  }

  /** How many callers have not been answered yet. */
  ghost function BusyCount<L, R>(calls: seq<Call<L, R>>): nat {
    if calls == [] then 0 else (if Busy(calls[0]) then 1 else 0) + BusyCount(calls[1..])
  }

  lemma {:induction false} BusyUpdate<L, R>(calls: seq<Call<L, R>>, i: nat, c: Call<L, R>)
    requires i < |calls|
    ensures BusyCount(calls[i := c]) + (if Busy(calls[i]) then 1 else 0)
      == BusyCount(calls) + (if Busy(c) then 1 else 0)
  {
    if i == 0 {
      assert calls[0 := c][1..] == calls[1..];
    } else {
      assert calls[i := c][1..] == calls[1..][i - 1 := c];
      BusyUpdate(calls[1..], i - 1, c);
    }
  }

  lemma LeadsMore<S(!new), L(!new), R(!new)>(e: Engine<S, L, R>, a: Api<S, L, R>, m: Api<S, L, R>, b: Api<S, L, R>,
                                             n: nat)
    requires Moves(e, a, m) && Leads(e, m, b, n)
    ensures Leads(e, a, b, n + 1)
  {
  }

  lemma {:induction false} LeadsConcat<S(!new), L(!new), R(!new)>(
      e: Engine<S, L, R>, a: Api<S, L, R>, b: Api<S, L, R>, c: Api<S, L, R>, n: nat, k: nat)
    requires Leads(e, a, b, n) && Leads(e, b, c, k)
    ensures Leads(e, a, c, n + k)
    decreases n
  {
    if n > 0 {
      var m :| Moves(e, a, m) && Leads(e, m, b, n - 1);
      LeadsConcat(e, m, b, c, n - 1, k);
      LeadsMore(e, a, m, c, n - 1 + k);
    }
  }

  /** Whoever has the lock gives it back, answered. */
  lemma {:induction false} HolderRuns<S(!new), L(!new), R(!new)>(e: Engine<S, L, R>, a: Api<S, L, R>, k: nat)
    returns (b: Api<S, L, R>, n: nat)
    requires Exclusive(a) && a.holder.Some?
    requires e.finished(RunSteps(e, a.shared, a.calls[a.holder.value].local, k).1)
    ensures Leads(e, a, b, n) && b.holder == None && BusyCount(b.calls) < BusyCount(a.calls)
    decreases k
  {
    var i := a.holder.value;
    var c := a.calls[i];
    if e.finished(c.local) {
      b, n := a.(holder := None, calls := a.calls[i := Answered(c.sql, e.result(c.local))],
                 log := a.log + [Commit(i, c.sql, e.result(c.local))]), 1;
      assert Unlocks(e, a, b, i);
      BusyUpdate(a.calls, i, b.calls[i]);
      LeadsMore(e, a, b, b, 0);
    } else {
      var (s, l) := e.step(a.shared, c.local);
      var m := a.(shared := s, calls := a.calls[i := Inside(c.sql, l)]);
      assert Works(e, a, m, i);
      BusyUpdate(a.calls, i, m.calls[i]);
      b, n := HolderRuns(e, m, k - 1);
      LeadsMore(e, a, m, b, n);
      n := n + 1;
    }
  }

  lemma FreeAtRest<S(!new), L(!new), R(!new)>(e: Engine<S, L, R>, a: Api<S, L, R>)
    requires Exclusive(a) && a.holder == None && forall i :: 0 <= i < |a.calls| ==> !a.calls[i].Waiting?
    ensures AtRest(e, a)
  {
  }

  lemma HolderLeaves<S(!new), L(!new), R(!new)>(e: Engine<S, L, R>, s: S, a: Api<S, L, R>)
    returns (m: Api<S, L, R>, n: nat)
    requires Inv(e, s, a) && a.holder.Some? && AlwaysEnds(e)
    ensures Leads(e, a, m, n) && Inv(e, s, m) && BusyCount(m.calls) < BusyCount(a.calls)
  {
    var k := HolderEnds(e, s, a);
    m, n := HolderRuns(e, a, k);
    LeadsKeeps(e, s, a, m, n);
  }

  lemma WaiterEnters<S(!new), L(!new), R(!new)>(e: Engine<S, L, R>, s: S, a: Api<S, L, R>, i: nat)
    returns (m: Api<S, L, R>)
    requires Inv(e, s, a) && a.holder == None && i < |a.calls| && a.calls[i].Waiting?
    ensures Leads(e, a, m, 1) && Inv(e, s, m) && BusyCount(m.calls) == BusyCount(a.calls) && m.holder.Some?
  {
    m := WaiterMoves(e, a, i);
    BusyUpdate(a.calls, i, m.calls[i]);
    InnerKeeps(e, s, a, m);
    LeadsMore(e, a, m, m, 0);
  }

  /** If every statement ends when it is run alone, the API comes to rest from every reachable state. */
  lemma {:induction false} CanRest<S(!new), L(!new), R(!new)>(e: Engine<S, L, R>, s: S, a: Api<S, L, R>)
    returns (b: Api<S, L, R>, n: nat)
    requires Inv(e, s, a) && AlwaysEnds(e)
    ensures Leads(e, a, b, n) && AtRest(e, b)
    decreases BusyCount(a.calls), a.holder == None
  {
    if a.holder.Some? {
      var m, p := HolderLeaves(e, s, a);
      b, n := CanRest(e, s, m);
      LeadsConcat(e, a, m, b, p, n);
      n := p + n;
    } else if i :| 0 <= i < |a.calls| && a.calls[i].Waiting? {
      var m := WaiterEnters(e, s, a, i);
      b, n := CanRest(e, s, m);
      LeadsConcat(e, a, m, b, 1, n);
      n := 1 + n;
    } else {
      FreeAtRest(e, a);
      b, n := a, 0;
    }
  }
}
