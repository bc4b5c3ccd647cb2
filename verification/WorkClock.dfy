/** Over any length of time, with a clock that only goes forward, the interleaved
    connections keep the store that the fold keeps, and so answer as it does, if and
    only if no sweep falls into a moment when commands that are going to fail are all
    the store holds. */
module WorkClock {
  import opened Wrappers
  import opened TransactionTracker
  import opened WorkQueue
  import opened WorkFold

  function TimeOf(step: Step): Time {
    match step
    case Take(job) => job.checkedAt
    case Finish(_, now) => now
  }

  /** The clock has not passed the time at which any command being executed will be
      recorded, and a command that finishes is recorded at that time. */
  ghost predicate Punctual(sys: System, step: Step) {
    && (forall client | client in sys.running :: TimeOf(step) <= sys.running[client].recordedAt)
    && (step.Finish? ==> step.client in sys.running && step.now == sys.running[step.client].recordedAt)
  }

  ghost predicate WillFail(sys: System, key: Key) {
    IsRunning(sys, key) && sys.running[key.client].request.handled.Failed?
  }

  /** The store has entries, all of commands that are going to fail. */
  ghost predicate FailingOnly(sys: System) {
    sys.store.txs != map[] && forall key | key in sys.store.txs :: WillFail(sys, key)
  }

  /** A check at `now` sweeps at such a moment, and later than the sweep before. */
  ghost predicate SweptWhileFailing(sys: System, retention: nat, now: Time) {
    FailingOnly(sys) && ShouldHousekeep(sys.store.last, now, Interval(retention)) && now != sys.store.last
  }

  /** The step checks a request and sweeps so. */
  ghost predicate BadSweep(sys: System, retention: nat, step: Step) {
    step.Take? && step.job.request.Request? && SweptWhileFailing(sys, retention, step.job.checkedAt)
  }

  // ---- the fold's store --------------------------------------------------

  /** The entry of `key` in the fold's store: that of the system's, once `key`'s
      command, if it is running, is finished. */
  ghost predicate EntryAhead(running: map<string, Job>, s: Store, fold: Store, key: Key) {
    if key.client in running && running[key.client].request.Request? && running[key.client].Key() == key
    then
      && key in s.txs && s.txs[key].InProgress?
      && match running[key.client].request.handled
         case Replied(output) => key in fold.txs && fold.txs[key] == Completed(running[key.client].recordedAt, output)
         case Failed(_) => key !in fold.txs
    else (key in fold.txs <==> key in s.txs) && (key in s.txs ==> fold.txs[key] == s.txs[key])
  }

  ghost predicate EntriesAhead(running: map<string, Job>, s: Store, fold: Store) {
    forall key :: EntryAhead(running, s, fold, key)
  }

  ghost predicate StoreAhead(running: map<string, Job>, s: Store, fold: Store) {
    s.last == fold.last && EntriesAhead(running, s, fold)
  }

  /** The fold's store is empty if the system's is, or holds only what will fail. */
  lemma FoldEmptyIff(sys: System, fold: Store)
    requires EntriesAhead(sys.running, sys.store, fold)
    ensures fold.txs == map[] <==> sys.store.txs == map[] || FailingOnly(sys)
  {
    if key :| key in fold.txs {
      assert EntryAhead(sys.running, sys.store, fold, key);
    }
    if key :| key in sys.store.txs && !WillFail(sys, key) {
      assert EntryAhead(sys.running, sys.store, fold, key);
    }
  }

  /** A sweep drops the same entries from both stores; the time of the last sweep
      stays the same exactly if the system does not sweep while the fold's is empty. */
  lemma HousekeptAhead(sys: System, retention: nat, now: Time, fold: Store)
    requires StoreAhead(sys.running, sys.store, fold)
    requires forall client | client in sys.running :: now <= sys.running[client].recordedAt
    ensures var s, f := Housekept(sys.store, retention, now), Housekept(fold, retention, now);
      && EntriesAhead(sys.running, s, f)
      && (s.last == f.last <==> !SweptWhileFailing(sys, retention, now))
  {
    FoldEmptyIff(sys, fold);
    forall key
      ensures EntryAhead(sys.running, Housekept(sys.store, retention, now), Housekept(fold, retention, now), key)
    {
      assert EntryAhead(sys.running, sys.store, fold, key);
    }
  }

  /** Checking a request of a client with no command running, then executing it in the fold. */
  lemma CheckEntry(running: map<string, Job>, s: Store, fold: Store, job: Job, k: Key)
    requires job.request.Request? && job.client !in running && NonEmptyReply(job)
    requires EntryAhead(running, s, fold, job.Key()) && EntryAhead(running, s, fold, k)
    requires job.Key() !in s.txs
    ensures EntryAhead(running[job.client := job], s.(txs := s.txs[job.Key() := InProgress]),
      Settle(fold.(txs := fold.txs[job.Key() := InProgress]), job.Key(), job.request.handled, job.recordedAt).0, k)
  {
  }

  lemma ReplayEntry(running: map<string, Job>, s: Store, fold: Store, job: Job, v: TxState, k: Key)
    requires job.request.Request? && job.client !in running
    requires EntryAhead(running, s, fold, k)
    ensures EntryAhead(running, s.(txs := s.txs[job.Key() := v]), fold.(txs := fold.txs[job.Key() := v]), k)
  {
  }

  /** Checking a request, in the system and in the fold, answers the same; the stores
      agree afterwards exactly if the check was no sweep of failing commands alone. */
  lemma TakeStores(sys: System, retention: nat, job: Job, fold: Store)
    requires Consistent(sys) && Allowed(sys, Take(job)) && Punctual(sys, Take(job))
    requires StoreAhead(sys.running, sys.store, fold) && job.request.Request?
    ensures CheckStore(fold, retention, job.Key(), job.checkedAt).1
      == CheckStore(sys.store, retention, job.Key(), job.checkedAt).1
    ensures var n := Next(sys, retention, Take(job));
      StoreAhead(n.running, n.store, Process(fold, retention, job).0) <==>
      !SweptWhileFailing(sys, retention, job.checkedAt)
  {
    var n := Next(sys, retention, Take(job));
    var key := job.Key();
    var s, f := Housekept(sys.store, retention, job.checkedAt), Housekept(fold, retention, job.checkedAt);
    HousekeptAhead(sys, retention, job.checkedAt, fold);
    TakeNeverBusy(sys, retention, job);
    assert EntryAhead(sys.running, s, f, key);
    forall k ensures EntryAhead(n.running, n.store, Process(fold, retention, job).0, k) {
      assert EntryAhead(sys.running, s, f, k);
      if key in s.txs {
        ReplayEntry(sys.running, s, f, job, Completed(job.checkedAt, s.txs[key].response), k);
      } else {
        CheckEntry(sys.running, s, f, job, k);
      }
    }
  }

  lemma TakeSameAnswer(sys: System, retention: nat, job: Job, fold: Store, client: string)
    requires Consistent(sys) && Allowed(sys, Take(job))
    requires job.request.Request? ==>
      CheckStore(fold, retention, job.Key(), job.checkedAt).1
        == CheckStore(sys.store, retention, job.Key(), job.checkedAt).1
    ensures Answers(Next(sys, retention, Take(job)), client)
      == Answers(sys, client) + if client == job.client then [Process(fold, retention, job).1] else []
  {
    TakeLogs(sys, retention, job, client);
    TakeNeverBusy(sys, retention, job);
  }

  lemma FinishStores(sys: System, retention: nat, client: string, now: Time, fold: Store)
    requires Consistent(sys) && Punctual(sys, Finish(client, now)) && StoreAhead(sys.running, sys.store, fold)
    ensures var n := Next(sys, retention, Finish(client, now)); StoreAhead(n.running, n.store, fold)
  {
    var n := Next(sys, retention, Finish(client, now));
    FinishLogs(sys, retention, client, now, client);
    forall k ensures EntryAhead(n.running, n.store, fold, k) {
      assert EntryAhead(sys.running, sys.store, fold, k);
    }
  }

  // ---- every step, then every run ----------------------------------------

  /** The system has done, or is about to do, what the fold over `jobs` has done. */
  ghost predicate Caught(sys: System, retention: nat, start: Time, jobs: seq<Job>) {
    var (fold, results) := ProcessAll(Store(map[], start), retention, jobs);
    && |results| == |jobs| && StoreAhead(sys.running, sys.store, fold)
    && forall client :: Answers(sys, client) == ForClient(jobs, results, client)
  }

  lemma TakeCaught(sys: System, retention: nat, start: Time, jobs: seq<Job>, job: Job)
    requires Consistent(sys) && Allowed(sys, Take(job)) && Punctual(sys, Take(job))
    requires job.request.Request? ==> !SweptWhileFailing(sys, retention, job.checkedAt)
    requires Caught(sys, retention, start, jobs)
    ensures Caught(Next(sys, retention, Take(job)), retention, start, jobs + [job])
  {
    var (fold, results) := ProcessAll(Store(map[], start), retention, jobs);
    var r := Process(fold, retention, job).1;
    ProcessAppend(Store(map[], start), retention, jobs, job);
    TakeLogs(sys, retention, job, job.client);
    if job.request.Request? {
      TakeStores(sys, retention, job, fold);
    }
    forall client
      ensures Answers(Next(sys, retention, Take(job)), client) == ForClient(jobs + [job], results + [r], client)
    {
      TakeSameAnswer(sys, retention, job, fold, client);
      ForClientAppend(jobs, results, job, r, client);
    }
  }

  lemma FinishCaught(sys: System, retention: nat, start: Time, jobs: seq<Job>, client: string, now: Time)
    requires Consistent(sys) && Punctual(sys, Finish(client, now)) && Caught(sys, retention, start, jobs)
    ensures Caught(Next(sys, retention, Finish(client, now)), retention, start, jobs)
  {
    var (fold, results) := ProcessAll(Store(map[], start), retention, jobs);
    FinishStores(sys, retention, client, now, fold);
    forall other
      ensures Answers(Next(sys, retention, Finish(client, now)), other) == ForClient(jobs, results, other)
    {
      FinishAnswers(sys, retention, client, now, other);
    }
  }

  lemma NextCaught(sys: System, retention: nat, start: Time, jobs: seq<Job>, step: Step)
    requires Consistent(sys) && Allowed(sys, step) && Punctual(sys, step) && Caught(sys, retention, start, jobs)
    requires !BadSweep(sys, retention, step)
    ensures Caught(Next(sys, retention, step), retention, start, jobs + if step.Take? then [step.job] else [])
  {
    match step
    case Take(job) => TakeCaught(sys, retention, start, jobs, job);
    case Finish(client, now) =>
      FinishCaught(sys, retention, start, jobs, client, now);
      assert jobs + [] == jobs;
  }

  lemma StartCaught(sys: System, retention: nat, start: Time)
    requires sys == System(Store(map[], start), map[], map[], map[])
    ensures Caught(sys, retention, start, [])
  {
    forall key ensures EntryAhead(sys.running, sys.store, Store(map[], start), key) {
    }
  }

  ghost predicate NoBadSweep(states: seq<System>, steps: seq<Step>, retention: nat, n: nat)
    requires n <= |steps| < |states|
  {
    forall i | 0 <= i < n :: !BadSweep(states[i], retention, steps[i])
  }

  lemma TakenNext(steps: seq<Step>, n: nat)
    requires n < |steps|
    ensures Taken(steps[..n + 1]) == Taken(steps[..n]) + if steps[n].Take? then [steps[n].job] else []
  {
    assert steps[..n + 1][..n] == steps[..n];
  }

  lemma StepAt(states: seq<System>, steps: seq<Step>, retention: nat, start: Time, i: nat)
    requires Execution(states, steps, retention) && i < |steps|
    requires states[0] == System(Store(map[], start), map[], map[], map[])
    ensures Consistent(states[i]) && Allowed(states[i], steps[i])
    ensures states[i + 1] == Next(states[i], retention, steps[i])
  {
    EveryConnectionAnswersInOrder(states, steps, retention, start, i);
    assert Allowed(states[i], steps[i]);
  }

  lemma {:induction false} InterleavingCaught(
    states: seq<System>, steps: seq<Step>, retention: nat, start: Time, n: nat)
    requires Execution(states, steps, retention) && n <= |steps|
    requires states[0] == System(Store(map[], start), map[], map[], map[])
    requires NoBadSweep(states, steps, retention, n) && forall i | 0 <= i < |steps| :: Punctual(states[i], steps[i])
    ensures Caught(states[n], retention, start, Taken(steps[..n]))
    decreases n
  {
    if n == 0 {
      StartCaught(states[0], retention, start);
    } else {
      InterleavingCaught(states, steps, retention, start, n - 1);
      StepAt(states, steps, retention, start, n - 1);
      assert Punctual(states[n - 1], steps[n - 1]);
      NextCaught(states[n - 1], retention, start, Taken(steps[..n - 1]), steps[n - 1]);
      TakenNext(steps, n - 1);
    }
  }

  /** A clock that never goes back: steps come in the order of their times, and a
      command is recorded when it finishes, or later than all steps if it never does. */
  ghost predicate Clocked(states: seq<System>, steps: seq<Step>)
    requires |states| == |steps| + 1
  {
    && (forall i, j | 0 <= i <= j < |steps| :: TimeOf(steps[i]) <= TimeOf(steps[j]))
    && (forall i | 0 <= i < |steps| && steps[i].Finish? && steps[i].client in states[i].running ::
      steps[i].now == states[i].running[steps[i].client].recordedAt)
    && (forall i, client | 0 <= i < |steps| && client in states[|steps|].running ::
      TimeOf(steps[i]) <= states[|steps|].running[client].recordedAt)
  }

  /** Whatever runs at step `i` is recorded no earlier than at any step `k` up to it. */
  lemma {:induction false} RecordedLater(
    states: seq<System>, steps: seq<Step>, retention: nat, start: Time, k: nat, i: nat, client: string)
    requires Execution(states, steps, retention) && Clocked(states, steps) && k < |steps| && k <= i <= |steps|
    requires states[0] == System(Store(map[], start), map[], map[], map[])
    requires client in states[i].running
    ensures TimeOf(steps[k]) <= states[i].running[client].recordedAt
    decreases |steps| - i
  {
    if i < |steps| {
      StepAt(states, steps, retention, start, i);
      match steps[i]
      case Take(job) =>
        TakeLogs(states[i], retention, job, client);
        RecordedLater(states, steps, retention, start, k, i + 1, client);
      case Finish(other, now) =>
        FinishLogs(states[i], retention, other, now, client);
        if other == client {
          assert TimeOf(steps[k]) <= TimeOf(steps[i]);
        } else {
          RecordedLater(states, steps, retention, start, k, i + 1, client);
        }
    }
  }

  lemma ClockedPunctual(states: seq<System>, steps: seq<Step>, retention: nat, start: Time, i: nat)
    requires Execution(states, steps, retention) && Clocked(states, steps) && i < |steps|
    requires states[0] == System(Store(map[], start), map[], map[], map[])
    ensures Punctual(states[i], steps[i])
  {
    StepAt(states, steps, retention, start, i);
    forall client | client in states[i].running
      ensures TimeOf(steps[i]) <= states[i].running[client].recordedAt
    {
      RecordedLater(states, steps, retention, start, i, i, client);
    }
  }

  /** However the connections interleave, and however long, each has answered, and
      is about to answer, just what a single worker's fold over the commands in the
      order they were taken answers for it. */
  lemma InterleavingIsProcessAll(
    states: seq<System>, steps: seq<Step>, retention: nat, start: Time, n: nat, client: string)
    requires Execution(states, steps, retention) && n <= |steps|
    requires states[0] == System(Store(map[], start), map[], map[], map[])
    requires Clocked(states, steps) && NoBadSweep(states, steps, retention, n)
    ensures var jobs := Taken(steps[..n]); var results := ProcessAll(Store(map[], start), retention, jobs).1;
      && |jobs| == |results|
      && Answers(states[n], client) == ForClient(jobs, results, client)
  {
    forall i | 0 <= i < |steps| ensures Punctual(states[i], steps[i]) {
      ClockedPunctual(states, steps, retention, start, i);
    }
    InterleavingCaught(states, steps, retention, start, n);
  }

  /** The stores of system and fold agree. */
  ghost predicate KeepsStore(sys: System, retention: nat, start: Time, jobs: seq<Job>) {
    StoreAhead(sys.running, sys.store, ProcessAll(Store(map[], start), retention, jobs).0)
  }

  lemma BadSweepDiverges(sys: System, retention: nat, start: Time, jobs: seq<Job>, job: Job)
    requires Consistent(sys) && Allowed(sys, Take(job)) && Punctual(sys, Take(job))
    requires KeepsStore(sys, retention, start, jobs) && BadSweep(sys, retention, Take(job))
    ensures !KeepsStore(Next(sys, retention, Take(job)), retention, start, jobs + [job])
  {
    ProcessAppend(Store(map[], start), retention, jobs, job);
    TakeStores(sys, retention, job, ProcessAll(Store(map[], start), retention, jobs).0);
  }

  /** Up to any step of a run the system keeps the fold's store, but for the commands
      being executed, if and only if no check before it sweeps while commands that
      will fail are all the store holds. */
  lemma StoresAgreeIff(states: seq<System>, steps: seq<Step>, retention: nat, start: Time, n: nat)
    requires Execution(states, steps, retention) && Clocked(states, steps) && n <= |steps|
    requires states[0] == System(Store(map[], start), map[], map[], map[])
    ensures NoBadSweep(states, steps, retention, n) <==>
      forall k | 0 <= k <= n :: KeepsStore(states[k], retention, start, Taken(steps[..k]))
  {
    forall i | 0 <= i < |steps| ensures Punctual(states[i], steps[i]) {
      ClockedPunctual(states, steps, retention, start, i);
    }
    if NoBadSweep(states, steps, retention, n) {
      forall k | 0 <= k <= n ensures KeepsStore(states[k], retention, start, Taken(steps[..k])) {
        InterleavingCaught(states, steps, retention, start, k);
      }
    } else {
      var i :| 0 <= i < n && BadSweep(states[i], retention, steps[i]);
      if KeepsStore(states[i], retention, start, Taken(steps[..i])) {
        StepAt(states, steps, retention, start, i);
        assert Punctual(states[i], steps[i]);
        BadSweepDiverges(states[i], retention, start, Taken(steps[..i]), steps[i].job);
        TakenNext(steps, i);
        assert !KeepsStore(states[i + 1], retention, start, Taken(steps[..i + 1]));
      }
    }
  }

  // ---- a failing command alone in the store ------------------------------

  const START := System(Store(map[], 0), map[], map[], map[])
  const FAILING := Job("a", Request(0, Failed([])), 10, 30)
  const FIRST := Job("b", Request(0, Replied([1])), 10, 10)
  const OTHER := Job("c", Request(0, Replied([1])), 15, 30)
  const REPEATED := Job("b", Request(0, Replied([2])), 22, 30)
  const STEPS: seq<Step> := [Take(FAILING), Take(FIRST), Finish("b", 10), Take(OTHER), Take(REPEATED)]
  const A := Key(0, "a")
  const B := Key(0, "b")
  const C := Key(0, "c")

  lemma DifferentClients()
    ensures "a" != "b" && "a" != "c" && "b" != "c" && A != B && A != C && B != C
  {
    assert "a"[0] != "b"[0] && "a"[0] != "c"[0] && "b"[0] != "c"[0];
  }

  ghost predicate At(sys: System, store: Store, running: map<string, Job>, results: map<string, seq<WorkResult>>) {
    sys.store == store && sys.running == running && sys.results == results
  }

  lemma TakesFailing()
    ensures At(Next(START, 10, Take(FAILING)), Store(map[A := InProgress], 0), map["a" := FAILING], map[])
  {
  }

  lemma TakesFirst(sys: System)
    requires At(sys, Store(map[A := InProgress], 0), map["a" := FAILING], map[])
    ensures Allowed(sys, Take(FIRST))
    ensures At(Next(sys, 10, Take(FIRST)), Store(map[A := InProgress, B := InProgress], 10),
      map["a" := FAILING, "b" := FIRST], map[])
  {
    DifferentClients();
    assert A in sys.store.txs && Sweep(sys.store.txs, 0) == sys.store.txs;
    assert map[A := InProgress][B := InProgress] == map[A := InProgress, B := InProgress];
  }

  lemma FinishesFirst(sys: System)
    requires At(sys, Store(map[A := InProgress, B := InProgress], 10), map["a" := FAILING, "b" := FIRST], map[])
    ensures At(Next(sys, 10, Finish("b", 10)), Store(map[A := InProgress, B := Completed(10, [1])], 10),
      map["a" := FAILING], map["b" := [Send([1])]])
  {
    DifferentClients();
    assert Log(sys.results, "b") + [Send([1])] == [Send([1])];
    assert sys.running - {"b"} == map["a" := FAILING];
  }

  lemma TakesOther(sys: System)
    requires At(sys, Store(map[A := InProgress, B := Completed(10, [1])], 10), map["a" := FAILING],
      map["b" := [Send([1])]])
    ensures Allowed(sys, Take(OTHER))
    ensures At(Next(sys, 10, Take(OTHER)),
      Store(map[A := InProgress, B := Completed(10, [1]), C := InProgress], 10),
      map["a" := FAILING, "c" := OTHER], map["b" := [Send([1])]])
  {
    DifferentClients();
  }

  lemma TakesRepeated(sys: System)
    requires At(sys, Store(map[A := InProgress, B := Completed(10, [1]), C := InProgress], 10),
      map["a" := FAILING, "c" := OTHER], map["b" := [Send([1])]])
    ensures Allowed(sys, Take(REPEATED))
    ensures At(Next(sys, 10, Take(REPEATED)), Store(map[A := InProgress, C := InProgress, B := InProgress], 22),
      map["a" := FAILING, "c" := OTHER, "b" := REPEATED], map["b" := [Send([1])]])
  {
    DifferentClients();
    assert Sweep(sys.store.txs, 12) == map[A := InProgress, C := InProgress];
  }

  /** While `FAILING` is executed the connections sweep at 10 and at 22, where the
      first reply is older than the retention period. */
  lemma Connections() returns (states: seq<System>)
    ensures |states| == 6 && states[0] == START && Execution(states, STEPS, 10)
    ensures At(states[1], Store(map[A := InProgress], 0), map["a" := FAILING], map[])
    ensures At(states[2], Store(map[A := InProgress, B := InProgress], 10), map["a" := FAILING, "b" := FIRST], map[])
    ensures At(states[5], Store(map[A := InProgress, C := InProgress, B := InProgress], 22),
      map["a" := FAILING, "c" := OTHER, "b" := REPEATED], map["b" := [Send([1])]])
  {
    TakesFailing();
    var s1 := Next(START, 10, Take(FAILING));
    TakesFirst(s1);
    var s2 := Next(s1, 10, Take(FIRST));
    FinishesFirst(s2);
    var s3 := Next(s2, 10, Finish("b", 10));
    TakesOther(s3);
    var s4 := Next(s3, 10, Take(OTHER));
    TakesRepeated(s4);
    states := [START, s1, s2, s3, s4, Next(s4, 10, Take(REPEATED))];
    forall i | 0 <= i < 5
      ensures Allowed(states[i], STEPS[i]) && states[i + 1] == Next(states[i], 10, STEPS[i])
    {
      assert i == 0 || i == 1 || i == 2 || i == 3 || i == 4;
    }
  }

  /** The fold is done with `FAILING` by then, so it sweeps at 15 only and keeps the reply. */
  lemma FoldOfThem()
    ensures ProcessAll(Store(map[], 0), 10, [FAILING, FIRST, OTHER, REPEATED]).1
      == [Failure, Send([1]), Send([1]), Send([1])]
  {
    DifferentClients();
    var f, g := Store(map[], 0), Store(map[B := Completed(10, [1])], 0);
    var h := Store(map[B := Completed(10, [1]), C := Completed(30, [1])], 15);
    assert f.txs[A := InProgress] - {A} == f.txs && f.txs[B := InProgress][B := Completed(10, [1])] == g.txs;
    assert B in g.txs && g.txs[C := InProgress][C := Completed(30, [1])] == h.txs && Sweep(g.txs, 5) == g.txs;
    assert Process(f, 10, FAILING) == (f, Failure) && Process(f, 10, FIRST) == (g, Send([1]));
    assert Process(g, 10, OTHER) == (h, Send([1])) && Process(h, 10, REPEATED).1 == Send([1]);
    assert ProcessAll(h, 10, [REPEATED]).1 == [Send([1])];
    assert [OTHER, REPEATED][1..] == [REPEATED];
    assert ProcessAll(g, 10, [OTHER, REPEATED]).1 == [Send([1]), Send([1])];
    assert [FIRST, OTHER, REPEATED][1..] == [OTHER, REPEATED];
    assert ProcessAll(f, 10, [FIRST, OTHER, REPEATED]).1 == [Send([1]), Send([1]), Send([1])];
    assert [FAILING, FIRST, OTHER, REPEATED][1..] == [FIRST, OTHER, REPEATED];
  }

  lemma TakenOfThem()
    ensures Taken(STEPS) == [FAILING, FIRST, OTHER, REPEATED]
  {
    assert STEPS[..5] == STEPS && STEPS[..0] == [];
    TakenNext(STEPS, 0);
    TakenNext(STEPS, 1);
    TakenNext(STEPS, 2);
    TakenNext(STEPS, 3);
    TakenNext(STEPS, 4);
  }

  lemma AppendPair(
    jobs: seq<Job>, results: seq<WorkResult>, a: Job, b: Job, ra: WorkResult, rb: WorkResult, client: string)
    requires |jobs| == |results| && a.client != client && b.client == client
    ensures ForClient(jobs + [a, b], results + [ra, rb], client) == ForClient(jobs, results, client) + [rb]
  {
    ForClientAppend(jobs, results, a, ra, client);
    ForClientAppend(jobs + [a], results + [ra], b, rb, client);
    assert jobs + [a] + [b] == jobs + [a, b] && results + [ra] + [rb] == results + [ra, rb];
  }

  lemma FoldForFirst()
    ensures var jobs := Taken(STEPS); var results := ProcessAll(START.store, 10, jobs).1;
      |jobs| == |results| && ForClient(jobs, results, "b") == [Send([1]), Send([1])]
  {
    TakenOfThem();
    FoldOfThem();
    DifferentClients();
    var r := Send([1]);
    AppendPair([], [], FAILING, FIRST, Failure, r, "b");
    AppendPair([FAILING, FIRST], [Failure, r], OTHER, REPEATED, r, r, "b");
    assert [FAILING, FIRST] + [OTHER, REPEATED] == [FAILING, FIRST, OTHER, REPEATED];
    assert [] + [FAILING, FIRST] == [FAILING, FIRST] && [] + [Failure, r] == [Failure, r];
    assert [Failure, r] + [r, r] == [Failure, r, r, r];
  }

  lemma SecondCheckSweeps(sys: System)
    requires At(sys, Store(map[A := InProgress], 0), map["a" := FAILING], map[])
    ensures BadSweep(sys, 10, Take(FIRST))
  {
    assert A in sys.store.txs;
  }

  lemma ConnectionsClocked(states: seq<System>)
    requires |states| == 6 && "b" in states[2].running && states[2].running["b"] == FIRST
    requires states[5].running == map["a" := FAILING, "c" := OTHER, "b" := REPEATED]
    ensures Clocked(states, STEPS)
  {
    forall i | 0 <= i < |STEPS| ensures TimeOf(STEPS[i]) == [10, 10, 10, 15, 22][i] {
      assert i == 0 || i == 1 || i == 2 || i == 3 || i == 4;
    }
  }

  /** Such a sweep can change answers: in this run, whose second check is one, the
      repeated request is executed a second time where the fold replays the first reply. */
  lemma SweepTimingMatters() returns (states: seq<System>)
    ensures |states| == 6 && states[0] == START && Execution(states, STEPS, 10) && Clocked(states, STEPS)
    ensures BadSweep(states[1], 10, STEPS[1])
    ensures Answers(states[5], "b") == [Send([1]), Send([2])]
    ensures var jobs := Taken(STEPS); var results := ProcessAll(START.store, 10, jobs).1;
      |jobs| == |results| && ForClient(jobs, results, "b") == [Send([1]), Send([1])]
  {
    states := Connections();
    ConnectionsClocked(states);
    SecondCheckSweeps(states[1]);
    assert Pending(states[5], "b") == [Send([2])];
    FoldForFirst();
  }
}
