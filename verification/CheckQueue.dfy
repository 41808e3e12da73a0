/**
 The parallel check queue as a state machine: one atomic step per critical
 section of the master and of any number of workers. Thread 0 is the master.
 */
module CheckQueue {
  import opened Wrappers

  /** A verification and the answer it will give when it is run. */
  datatype Check = Check(id: nat, passes: bool)

  /** Where a thread is: not in the loop, waiting on its condition variable, or running its own batch. */
  datatype Thread =
    | Outside
    | Waiting(notified: bool)
    | Working(batch: seq<Check>, ok: bool)

  datatype State = State(
    queue: seq<Check>,
    nIdle: int,
    nTotal: int,
    allOk: bool,
    nTodo: int,
    batchSize: nat,
    threads: seq<Thread>)

  /** A critical section: the first of a call to Loop, one after a batch, one after a wait, or Add by the master. */
  datatype Event =
    | Enter(i: nat)
    | Done(i: nat)
    | Wake(i: nat)
    | Add(checks: seq<Check>, woken: nat)

  predicate AllPass(checks: seq<Check>) {
    forall k :: 0 <= k < |checks| ==> checks[k].passes
  }

  /** Run a batch: checks are skipped once one has failed, or if something had failed before. */
  method RunBatch(batch: seq<Check>, ok: bool) returns (r: bool)
    ensures r == (ok && AllPass(batch))
  {
    r := ok;
    for k := 0 to |batch|
      invariant r == (ok && AllPass(batch[..k]))
    {
      assert batch[..k + 1] == batch[..k] + [batch[k]];
      if r {
        r := batch[k].passes;
      }
    }
    assert batch[..|batch|] == batch;
  }

  function Reversed(s: seq<Check>): (r: seq<Check>)
    ensures |r| == |s| && forall k :: 0 <= k < |s| ==> r[k] == s[|s| - 1 - k]
  {
    seq(|s|, k requires 0 <= k < |s| => s[|s| - 1 - k])
  }

  lemma ShareIsPart(a: nat, d: int)
    requires d > 0
    ensures 0 <= a / d <= a
  {
    if d == 1 {
      assert a / 1 == a;
    } else {
      var q := a / d;
      assert d * q <= a;
      assert q <= d * q;
    }
  }

  /** How many checks a thread takes at once. */
  function BatchLength(s: State): (n: nat)
    requires s.queue != []
    ensures 1 <= n <= |s.queue|
    // At most the batch size and an equal share, and no less than the smaller of the two, but for the one check always taken.
    ensures n == 1 || n <= s.batchSize
    ensures s.nTotal + s.nIdle >= 0 ==> n == 1 || n * (s.nTotal + s.nIdle + 1) <= |s.queue|
    ensures s.nTotal + s.nIdle >= 0 && n < s.batchSize ==> |s.queue| < (n + 1) * (s.nTotal + s.nIdle + 1)
  {
    // The divisor is positive in every reachable state.
    var divisor := s.nTotal + s.nIdle + 1;
    var share := if divisor > 0 then ShareIsPart(|s.queue|, divisor); |s.queue| / divisor else 0;
    var capped := if s.batchSize < share then s.batchSize else share;
    if capped < 1 then 1 else capped
  }

  /** From the top of the inner loop: return (master only), wait, or take a batch off the end of the queue. */
  function Proceed(s: State, i: nat): (State, Option<bool>)
    requires i < |s.threads|
  {
    if s.queue == [] then
      if i == 0 && s.nTodo == 0 then
        (s.(nTotal := s.nTotal - 1, allOk := true, threads := s.threads[i := Outside]), Some(s.allOk))
      else
        (s.(nIdle := s.nIdle + 1, threads := s.threads[i := Waiting(false)]), None)
    else
      var cut := |s.queue| - BatchLength(s);
      (s.(queue := s.queue[..cut], threads := s.threads[i := Working(Reversed(s.queue[cut..]), s.allOk)]), None)
  }

  function Notified(t: Thread): Thread {
    if t.Waiting? then Waiting(true) else t
  }

  /** notify_all on the workers' condition variable. */
  function NotifyWorkers(threads: seq<Thread>): (r: seq<Thread>)
    ensures |r| == |threads|
  {
    seq(|threads|, k requires 0 <= k < |threads| => if k == 0 then threads[k] else Notified(threads[k]))
  }

  predicate Enabled(s: State, e: Event) {
    match e
    case Enter(i) => i < |s.threads| && s.threads[i].Outside?
    case Done(i) => i < |s.threads| && s.threads[i].Working?
    case Wake(i) => i < |s.threads| && s.threads[i].Waiting?  // spurious wake-ups included
    case Add(_, woken) => 0 < |s.threads| && s.threads[0].Outside? && woken < |s.threads|
  }

  /** One atomic step, with the value Wait returns when the step is its last. */
  function Step(s: State, e: Event): (State, Option<bool>)
    requires Enabled(s, e)
  {
    match e
    case Enter(i) => Proceed(s.(nTotal := s.nTotal + 1), i)
    case Done(i) =>
      var batch := s.threads[i].batch;
      var s1 := s.(allOk := s.allOk && s.threads[i].ok && AllPass(batch), nTodo := s.nTodo - |batch|);
      var s2 := if s1.nTodo == 0 && i != 0 then s1.(threads := s1.threads[0 := Notified(s1.threads[0])]) else s1;
      Proceed(s2, i)
    case Wake(i) => Proceed(s.(nIdle := s.nIdle - 1), i)
    case Add(checks, woken) =>
      var s1 := s.(queue := s.queue + checks, nTodo := s.nTodo + |checks|);
      (if |checks| == 1 && woken != 0 then s1.(threads := s1.threads[woken := Notified(s1.threads[woken])])
       else if |checks| > 1 then s1.(threads := NotifyWorkers(s1.threads))
       else s1, None)
  }

  // ----- counting over the threads

  ghost function InFlight(threads: seq<Thread>): nat {
    if threads == [] then 0
    else InFlight(threads[1..]) + if threads[0].Working? then |threads[0].batch| else 0
  }

  ghost function Idle(threads: seq<Thread>): nat {
    if threads == [] then 0 else Idle(threads[1..]) + if threads[0].Waiting? then 1 else 0
  }

  ghost function Inside(threads: seq<Thread>): nat {
    if threads == [] then 0 else Inside(threads[1..]) + if threads[0].Outside? then 0 else 1
  }

  function BatchOf(t: Thread): seq<Check> { if t.Working? then t.batch else [] }

  lemma {:induction false} CountsAfter(threads: seq<Thread>, i: nat, t: Thread)
    requires i < |threads|
    ensures InFlight(threads[i := t]) == InFlight(threads) - |BatchOf(threads[i])| + |BatchOf(t)|
    ensures Idle(threads[i := t]) == Idle(threads) - (if threads[i].Waiting? then 1 else 0) + (if t.Waiting? then 1 else 0)
    ensures Inside(threads[i := t]) == Inside(threads) + (if threads[i].Outside? then 1 else 0) - (if t.Outside? then 1 else 0)
  {
    if i == 0 {
      assert threads[i := t][1..] == threads[1..];
    } else {
      CountsAfter(threads[1..], i - 1, t);
      assert threads[i := t][1..] == threads[1..][i - 1 := t];
    }
  }

  /** Notifying waiters changes none of the counts. */
  lemma {:induction false} CountsSame(threads: seq<Thread>, threads': seq<Thread>)
    requires |threads| == |threads'|
    requires forall k :: 0 <= k < |threads| ==> threads'[k] == threads[k] || threads'[k] == Notified(threads[k])
    ensures InFlight(threads') == InFlight(threads) && Idle(threads') == Idle(threads) && Inside(threads') == Inside(threads)
  {
    if threads != [] {
      CountsSame(threads[1..], threads'[1..]);
    }
  }

  lemma {:induction false} SomeoneWorks(threads: seq<Thread>) returns (w: nat)
    requires InFlight(threads) > 0
    ensures w < |threads| && threads[w].Working? && |threads[w].batch| > 0
  {
    if threads[0].Working? && |threads[0].batch| > 0 {
      w := 0;
    } else {
      var v := SomeoneWorks(threads[1..]);
      w := v + 1;
    }
  }

  lemma {:induction false} NobodyWorks(threads: seq<Thread>, w: nat)
    requires InFlight(threads) == 0 && w < |threads|
    ensures BatchOf(threads[w]) == []
  {
    if w > 0 {
      NobodyWorks(threads[1..], w - 1);
    }
  }

  // ----- the invariant

  /** Everything added this round passes exactly when nothing has failed so far and all that is left passes. */
  ghost predicate Verdict(s: State, added: seq<Check>) {
    AllPass(added) <==> s.allOk && AllPass(s.queue) && forall w :: 0 <= w < |s.threads| ==> AllPass(BatchOf(s.threads[w]))
  }

  /** What holds between critical sections; `added` are the checks added since Wait last returned. */
  ghost predicate Inv(s: State, added: seq<Check>) {
    && |s.threads| > 0
    && s.nTodo == |s.queue| + InFlight(s.threads)
    && s.nIdle == Idle(s.threads) && s.nTotal == Inside(s.threads)
    && (forall w :: 0 <= w < |s.threads| && s.threads[w].Working? ==> |s.threads[w].batch| > 0 && (!s.threads[w].ok ==> !s.allOk))
    && Verdict(s, added)
    // The master sleeps only while others still have work that it will be told about.
    && (s.threads[0] == Waiting(false) ==> s.nTodo > 0)
    && (s.threads[0].Waiting? ==> s.queue == [])
  }

  function Initial(batchSize: nat, workers: nat): State {
    State([], 0, 0, true, 0, batchSize, seq(workers + 1, _ => Outside))
  }

  /** The checks of the current round after a step. */
  function AddedAfter(added: seq<Check>, e: Event, ret: Option<bool>): seq<Check> {
    if ret.Some? then [] else if e.Add? then added + e.checks else added
  }

  lemma {:induction false} NobodyInside(n: nat)
    ensures InFlight(seq(n, _ => Outside)) == 0 && Idle(seq(n, _ => Outside)) == 0 && Inside(seq(n, _ => Outside)) == 0
  {
    if n > 0 {
      var threads := seq(n, _ => Outside);
      assert threads[1..] == seq(n - 1, _ => Outside);
      NobodyInside(n - 1);
    }
  }

  lemma InitialInv(batchSize: nat, workers: nat)
    ensures Inv(Initial(batchSize, workers), [])
  {
    NobodyInside(workers + 1);
  }

  /** The invariant, except that thread `i` is between two places: in the loop, but neither waiting nor working. */
  ghost predicate Between(s: State, i: nat, added: seq<Check>) {
    && i < |s.threads|
    && s.nTodo == |s.queue| + InFlight(s.threads[i := Outside])
    && s.nIdle == Idle(s.threads[i := Outside]) && s.nTotal == Inside(s.threads[i := Outside]) + 1
    && (forall w :: 0 <= w < |s.threads| && w != i && s.threads[w].Working? ==> |s.threads[w].batch| > 0 && (!s.threads[w].ok ==> !s.allOk))
    && Verdict(s.(threads := s.threads[i := Outside]), added)
    && (i != 0 ==> (s.threads[0] == Waiting(false) ==> s.nTodo > 0) && (s.threads[0].Waiting? ==> s.queue == []))
  }

  lemma TakenPasses(queue: seq<Check>, cut: nat)
    requires cut <= |queue|
    ensures AllPass(queue) <==> AllPass(queue[..cut]) && AllPass(Reversed(queue[cut..]))
  {
    var batch := Reversed(queue[cut..]);
    if AllPass(queue[..cut]) && AllPass(batch) {
      forall k | 0 <= k < |queue|
        ensures queue[k].passes
      {
        if k < cut {
          assert queue[..cut][k].passes;
        } else {
          assert batch[|queue| - 1 - k].passes;
        }
      }
    }
  }

  lemma ReturnKeepsInv(s: State, added: seq<Check>)
    requires Between(s, 0, added) && s.queue == [] && s.nTodo == 0
    ensures Inv(Proceed(s, 0).0, []) && Proceed(s, 0).1 == Some(AllPass(added))
  {
    var rest := s.threads[0 := Outside];
    CountsAfter(rest, 0, Outside);
    assert rest[0 := Outside] == rest;
    forall w | 0 <= w < |rest|
      ensures BatchOf(rest[w]) == []
    {
      NobodyWorks(rest, w);
    }
  }

  lemma WaitKeepsInv(s: State, i: nat, added: seq<Check>)
    requires Between(s, i, added) && s.queue == [] && !(i == 0 && s.nTodo == 0)
    ensures Inv(Proceed(s, i).0, added)
  {
    var rest := s.threads[i := Outside];
    var waiting := Waiting(false);
    assert s.threads[i := waiting] == rest[i := waiting];
    CountsAfter(rest, i, waiting);
    assert forall w :: 0 <= w < |rest| ==> BatchOf(rest[i := waiting][w]) == BatchOf(rest[w]);
  }

  lemma TakeVerdict(s: State, i: nat, added: seq<Check>, cut: nat, ok: bool)
    requires i < |s.threads| && cut <= |s.queue| && Verdict(s.(threads := s.threads[i := Outside]), added)
    ensures Verdict(s.(queue := s.queue[..cut], threads := s.threads[i := Working(Reversed(s.queue[cut..]), ok)]), added)
  {
    var rest := s.threads[i := Outside];
    var batch := Reversed(s.queue[cut..]);
    var threads := s.threads[i := Working(batch, ok)];
    TakenPasses(s.queue, cut);
    assert BatchOf(rest[i]) == [] && BatchOf(threads[i]) == batch;
    assert forall w :: 0 <= w < |rest| && w != i ==> threads[w] == rest[w];
    assert (forall w :: 0 <= w < |rest| ==> AllPass(BatchOf(threads[w]))) <==>
      AllPass(batch) && (forall w :: 0 <= w < |rest| ==> AllPass(BatchOf(rest[w])));
  }

  lemma TakeKeepsInv(s: State, i: nat, added: seq<Check>)
    requires Between(s, i, added) && s.queue != []
    ensures Inv(Proceed(s, i).0, added)
  {
    var rest := s.threads[i := Outside];
    var cut := |s.queue| - BatchLength(s);
    var working := Working(Reversed(s.queue[cut..]), s.allOk);
    assert s.threads[i := working] == rest[i := working];
    CountsAfter(rest, i, working);
    TakeVerdict(s, i, added, cut, s.allOk);
  }

  /** Whatever a thread does from the top of the inner loop, the invariant is back, and a result is the round's verdict. */
  lemma ProceedKeepsInv(s: State, i: nat, added: seq<Check>)
    requires Between(s, i, added)
    ensures Inv(Proceed(s, i).0, if Proceed(s, i).1.Some? then [] else added)
    ensures Proceed(s, i).1.Some? ==> Proceed(s, i).1.value == AllPass(added)
  {
    if s.queue != [] {
      TakeKeepsInv(s, i, added);
    } else if i == 0 && s.nTodo == 0 {
      ReturnKeepsInv(s, added);
    } else {
      WaitKeepsInv(s, i, added);
    }
  }

  lemma EnterKeepsInv(s: State, i: nat, added: seq<Check>)
    requires Inv(s, added) && Enabled(s, Enter(i))
    ensures Between(s.(nTotal := s.nTotal + 1), i, added)
  {
    assert s.threads[i := Outside] == s.threads;
  }

  lemma WakeKeepsInv(s: State, i: nat, added: seq<Check>)
    requires Inv(s, added) && Enabled(s, Wake(i))
    ensures Between(s.(nIdle := s.nIdle - 1), i, added)
  {
    CountsAfter(s.threads, i, Outside);
    assert forall w :: 0 <= w < |s.threads| ==> BatchOf(s.threads[i := Outside][w]) == BatchOf(s.threads[w]);
  }

  function Settled(s: State, i: nat): State
    requires Enabled(s, Done(i))
  {
    var batch := s.threads[i].batch;
    s.(allOk := s.allOk && s.threads[i].ok && AllPass(batch), nTodo := s.nTodo - |batch|)
  }

  lemma DoneVerdict(s: State, i: nat, added: seq<Check>)
    requires Inv(s, added) && Enabled(s, Done(i))
    ensures Verdict(Settled(s, i).(threads := s.threads[i := Outside]), added)
  {
    var rest := s.threads[i := Outside];
    assert forall w :: 0 <= w < |rest| && w != i ==> rest[w] == s.threads[w];
    assert BatchOf(rest[i]) == [] && BatchOf(s.threads[i]) == s.threads[i].batch;
  }

  lemma DoneKeepsInv(s: State, i: nat, added: seq<Check>)
    requires Inv(s, added) && Enabled(s, Done(i))
    ensures var s1 := Settled(s, i);
            Between(if s1.nTodo == 0 && i != 0 then s1.(threads := s1.threads[0 := Notified(s1.threads[0])]) else s1, i, added)
  {
    var s1 := Settled(s, i);
    var rest := s.threads[i := Outside];
    CountsAfter(s.threads, i, Outside);
    DoneVerdict(s, i, added);
    if s1.nTodo == 0 && i != 0 {
      var told := s1.threads[0 := Notified(s1.threads[0])];
      assert told[i := Outside] == rest[0 := Notified(rest[0])];
      CountsSame(rest, told[i := Outside]);
      assert forall w :: 0 <= w < |rest| ==> BatchOf(told[i := Outside][w]) == BatchOf(rest[w]);
    }
  }

  lemma AddKeepsInv(s: State, checks: seq<Check>, woken: nat, added: seq<Check>)
    requires Inv(s, added) && Enabled(s, Add(checks, woken))
    ensures Inv(Step(s, Add(checks, woken)).0, added + checks)
  {
    var s' := Step(s, Add(checks, woken)).0;
    CountsSame(s.threads, s'.threads);
    assert forall w :: 0 <= w < |s.threads| ==> BatchOf(s'.threads[w]) == BatchOf(s.threads[w]);
    AllPassBoth(s.queue, checks);
    AllPassBoth(added, checks);
  }

  lemma AllPassBoth(a: seq<Check>, b: seq<Check>)
    ensures AllPass(a + b) <==> AllPass(a) && AllPass(b)
  {
    if AllPass(a + b) {
      assert forall k :: 0 <= k < |a| ==> a[k] == (a + b)[k];
      assert forall k :: 0 <= k < |b| ==> b[k] == (a + b)[|a| + k];
    }
  }

  /** Every step keeps the invariant, and the value Wait returns is the conjunction of the round's checks. */
  lemma StepKeepsInv(s: State, e: Event, added: seq<Check>)
    requires Inv(s, added) && Enabled(s, e)
    ensures Inv(Step(s, e).0, AddedAfter(added, e, Step(s, e).1))
    ensures Step(s, e).1.Some? ==> Step(s, e).1.value == AllPass(added)
  {
    hide Inv, Between, Proceed;
    match e
    case Enter(i) =>
      EnterKeepsInv(s, i, added);
      ProceedKeepsInv(s.(nTotal := s.nTotal + 1), i, added);
    case Wake(i) =>
      WakeKeepsInv(s, i, added);
      ProceedKeepsInv(s.(nIdle := s.nIdle - 1), i, added);
    case Done(i) =>
      DoneKeepsInv(s, i, added);
      var s1 := Settled(s, i);
      ProceedKeepsInv(if s1.nTodo == 0 && i != 0 then s1.(threads := s1.threads[0 := Notified(s1.threads[0])]) else s1, i, added);
    case Add(checks, woken) =>
      AddKeepsInv(s, checks, woken, added);
  }

  // ----- whole runs

  /** A run so far: the state, the checks of the open round, and for every closed round its checks and its result. */
  datatype Run = Run(s: State, added: seq<Check>, rounds: seq<(seq<Check>, bool)>)

  ghost predicate Runs(batchSize: nat, workers: nat, events: seq<Event>, run: Run)
    decreases |events|
  {
    if events == [] then run == Run(Initial(batchSize, workers), [], [])
    else
      var e := events[|events| - 1];
      exists before: Run ::
        && Runs(batchSize, workers, events[..|events| - 1], before)
        && Enabled(before.s, e)
        && run == After(before, e)
  }

  function After(r: Run, e: Event): Run
    requires Enabled(r.s, e)
  {
    var (s', ret) := Step(r.s, e);
    Run(s', AddedAfter(r.added, e, ret), if ret.Some? then r.rounds + [(r.added, ret.value)] else r.rounds)
  }

  lemma AddDoesNotReturn(s: State, e: Event)
    requires Enabled(s, e)
    ensures e.Add? ==> Step(s, e).1.None?
  {
  }

  /** All checks handed to Add along a run, in order. */
  ghost function AllAdded(events: seq<Event>): seq<Check> {
    if events == [] then []
    else
      var e := events[|events| - 1];
      AllAdded(events[..|events| - 1]) + if e.Add? then e.checks else []
  }

  ghost function Concat(rounds: seq<(seq<Check>, bool)>): seq<Check> {
    if rounds == [] then [] else Concat(rounds[..|rounds| - 1]) + rounds[|rounds| - 1].0
  }

  /** What is claimed of a run that has seen `all` checks. */
  ghost predicate Sound(run: Run, all: seq<Check>) {
    && Inv(run.s, run.added)
    && (forall k :: 0 <= k < |run.rounds| ==> run.rounds[k].1 == AllPass(run.rounds[k].0))
    && Concat(run.rounds) + run.added == all
  }

  lemma SoundAfter(before: Run, e: Event, all: seq<Check>)
    requires Enabled(before.s, e) && Sound(before, all)
    ensures Sound(After(before, e), all + if e.Add? then e.checks else [])
  {
    hide Inv, Step, Enabled, AllPass;
    StepKeepsInv(before.s, e, before.added);
    AddDoesNotReturn(before.s, e);
    var run := After(before, e);
    if Step(before.s, e).1.Some? {
      assert run.rounds[..|run.rounds| - 1] == before.rounds;
      assert Concat(run.rounds) == Concat(before.rounds) + before.added;
    }
  }

  /**
   In every interleaving: the invariant holds throughout, each round's result is the conjunction
   of exactly that round's checks, and the rounds together are all the checks ever added, in order.
   */
  lemma {:induction false} EveryRun(batchSize: nat, workers: nat, events: seq<Event>, run: Run)
    requires Runs(batchSize, workers, events, run)
    ensures Inv(run.s, run.added)
    ensures forall k :: 0 <= k < |run.rounds| ==> run.rounds[k].1 == AllPass(run.rounds[k].0)
    ensures Concat(run.rounds) + run.added == AllAdded(events)
    decreases |events|
  {
    hide Inv, After, Enabled, AllPass;
    if events == [] {
      InitialInv(batchSize, workers);
    } else {
      var prefix, e := events[..|events| - 1], events[|events| - 1];
      var before: Run :| Runs(batchSize, workers, prefix, before) && Enabled(before.s, e) && run == After(before, e);
      EveryRun(batchSize, workers, prefix, before);
      SoundAfter(before, e, AllAdded(prefix));
    }
  }

  /** A master inside Wait is never stuck: some thread has work in hand, or the master has been told to look again. */
  lemma NoDeadlock(s: State, added: seq<Check>) returns (e: Event)
    requires Inv(s, added) && !s.threads[0].Outside?
    ensures Enabled(s, e)
    ensures e.Done? || (e == Wake(0) && s.threads[0] == Waiting(true))
  {
    if s.threads[0].Working? {
      e := Done(0);
    } else if s.threads[0].notified {
      e := Wake(0);
    } else {
      var w := SomeoneWorks(s.threads);
      e := Done(w);
    }
  }

  /** A quiet master has nothing queued and nothing in flight left over: the next round starts clean. */
  lemma RoundsDoNotLeak(s: State, e: Event, added: seq<Check>)
    requires Inv(s, added) && Enabled(s, e) && Step(s, e).1.Some?
    ensures var s' := Step(s, e).0;
            s'.allOk && s'.queue == [] && s'.nTodo == 0 && InFlight(s'.threads) == 0 && s'.threads[0].Outside?
  {
    StepKeepsInv(s, e, added);
  }

  /** While the master is inside Wait no step adds work, and every finished batch removes some. */
  lemma WorkRunsOut(s: State, e: Event, added: seq<Check>)
    requires Inv(s, added) && Enabled(s, e) && !s.threads[0].Outside?
    ensures Step(s, e).0.nTodo <= s.nTodo
    ensures e.Done? ==> Step(s, e).0.nTodo < s.nTodo
  {
  }
}
