/** Within one retention period, any interleaving of the connections answers as one
    worker would that took the same commands in the same order. */
module WorkFold {
  import opened Wrappers
  import opened TransactionTracker
  import opened WorkQueue

  // ---- the store without its clock ---------------------------------------

  /** What the store remembers of each request: its reply, or that it is unfinished. */
  type Memo = map<Key, Option<bytes>>

  function MemoOf(s: Store): Memo {
    map k | k in s.txs :: if s.txs[k].InProgress? then None else Some(s.txs[k].response)
  }

  /** All replies were stored since `since`. */
  ghost predicate Recent(s: Store, since: Time) {
    forall k | k in s.txs && s.txs[k].Completed? :: s.txs[k].time >= since
  }

  function MemoCheck(m: Memo, key: Key): (Memo, Status) {
    if key !in m then (m[key := None], New)
    else if m[key].None? then (m, Busy)
    else (m, Replay(m[key].value))
  }

  /** The result of an execution. */
  function Outcome(handled: Handled): WorkResult {
    match handled
    case Replied(output) => Send(output)
    case Failed(_) => Failure
  }

  function MemoSettle(m: Memo, key: Key, handled: Handled): Memo {
    match handled
    case Replied(output) => if output == [] then m else m[key := Some(output)]
    case Failed(_) => m - {key}
  }

  /** While nothing is old enough to be evicted, sweeping changes nothing. */
  lemma CheckMemo(s: Store, retention: nat, key: Key, now: Time, since: Time)
    requires Recent(s, since) && since <= now <= since + retention
    ensures var (t, status) := CheckStore(s, retention, key, now);
      Recent(t, since) && (MemoOf(t), status) == MemoCheck(MemoOf(s), key)
  {
    assert Housekept(s, retention, now).txs == s.txs;
    var t := CheckStore(s, retention, key, now).0;
    assert MemoOf(t) == MemoCheck(MemoOf(s), key).0;
  }

  lemma SettleMemo(s: Store, key: Key, handled: Handled, now: Time, since: Time)
    requires Recent(s, since) && since <= now
    ensures var (t, r) := Settle(s, key, handled, now);
      Recent(t, since) && MemoOf(t) == MemoSettle(MemoOf(s), key, handled) && r == Outcome(handled)
  {
    var t := Settle(s, key, handled, now).0;
    assert MemoOf(t) == MemoSettle(MemoOf(s), key, handled);
  }

  // ---- the fold ----------------------------------------------------------

  function MemoProcess(m: Memo, job: Job): (Memo, WorkResult) {
    if job.request.Malformed? then (m, Failure)
    else
      var (checked, status) := MemoCheck(m, job.Key());
      match status
      case Replay(response) => (checked, Send(response))
      case Busy => (checked, NoReply)
      case New => (MemoSettle(checked, job.Key(), job.request.handled), Outcome(job.request.handled))
  }

  function MemoAll(jobs: seq<Job>): (r: (Memo, seq<WorkResult>))
    ensures |r.1| == |jobs|
  {
    if jobs == [] then (map[], [])
    else
      var last := |jobs| - 1;
      var (m, results) := MemoAll(jobs[..last]);
      var (n, r) := MemoProcess(m, jobs[last]);
      (n, results + [r])
  }

  predicate Timely(job: Job, since: Time, retention: nat) {
    since <= job.checkedAt <= since + retention && since <= job.recordedAt
  }

  lemma ProcessMemo(s: Store, retention: nat, job: Job, since: Time)
    requires Recent(s, since) && Timely(job, since, retention)
    ensures var (t, r) := Process(s, retention, job); Recent(t, since) && (MemoOf(t), r) == MemoProcess(MemoOf(s), job)
  {
    if job.request.Request? {
      CheckMemo(s, retention, job.Key(), job.checkedAt, since);
      SettleMemo(
        CheckStore(s, retention, job.Key(), job.checkedAt).0, job.Key(), job.request.handled, job.recordedAt, since);
    }
  }

  lemma {:induction false} ProcessAppend(s: Store, retention: nat, jobs: seq<Job>, job: Job)
    ensures var (t, rs) := ProcessAll(s, retention, jobs); var (u, r) := Process(t, retention, job);
      ProcessAll(s, retention, jobs + [job]) == (u, rs + [r])
    decreases jobs
  {
    if jobs == [] {
      assert [] + [job] == [job] && [job][1..] == [];
      assert [Process(s, retention, job).1] + [] == [] + [Process(s, retention, job).1];
    } else {
      var (t, r) := Process(s, retention, jobs[0]);
      var (u, rs) := ProcessAll(t, retention, jobs[1..]);
      assert (jobs + [job])[1..] == jobs[1..] + [job];
      ProcessAppend(t, retention, jobs[1..], job);
      assert [r] + (rs + [Process(u, retention, job).1]) == ([r] + rs) + [Process(u, retention, job).1];
    }
  }

  /** The worker's fold gives the results of the fold on the memo. */
  lemma {:induction false} FoldMemo(jobs: seq<Job>, retention: nat, since: Time)
    requires forall i | 0 <= i < |jobs| :: Timely(jobs[i], since, retention)
    ensures var (t, rs) := ProcessAll(Store(map[], since), retention, jobs);
      Recent(t, since) && (MemoOf(t), rs) == MemoAll(jobs)
    decreases |jobs|
  {
    if jobs == [] {
      assert MemoOf(Store(map[], since)) == map[];
    } else {
      var last := |jobs| - 1;
      FoldMemo(jobs[..last], retention, since);
      assert jobs[..last] + [jobs[last]] == jobs;
      ProcessAppend(Store(map[], since), retention, jobs[..last], jobs[last]);
      ProcessMemo(ProcessAll(Store(map[], since), retention, jobs[..last]).0, retention, jobs[last], since);
    }
  }

  // ---- the interleaving --------------------------------------------------

  /** The commands taken, in order, by any connection. */
  function Taken(steps: seq<Step>): seq<Job> {
    if steps == [] then []
    else
      var last := |steps| - 1;
      Taken(steps[..last]) + if steps[last].Take? then [steps[last].job] else []
  }

  /** The results that belong to one connection. */
  function ForClient(jobs: seq<Job>, results: seq<WorkResult>, client: string): seq<WorkResult>
    requires |jobs| == |results|
  {
    if jobs == [] then []
    else
      var last := |jobs| - 1;
      ForClient(jobs[..last], results[..last], client) + if jobs[last].client == client then [results[last]] else []
  }

  ghost predicate IsRunning(sys: System, key: Key) {
    key.client in sys.running && sys.running[key.client].request.Request? && sys.running[key.client].Key() == key
  }

  ghost predicate SameMemo(m: Memo, n: Memo, key: Key) {
    (key in m <==> key in n) && (key in m ==> m[key] == n[key])
  }

  /** What the fold remembers of `key` once `key`'s command, if it is running, is finished. */
  ghost predicate AheadAt(sys: System, m: Memo, key: Key) {
    if IsRunning(sys, key)
    then SameMemo(m, MemoSettle(MemoOf(sys.store), key, sys.running[key.client].request.handled), key)
    else SameMemo(m, MemoOf(sys.store), key)
  }

  /** The fold is ahead of the system by the commands being executed, and agrees otherwise. */
  ghost predicate MemoAhead(sys: System, m: Memo) {
    forall key :: AheadAt(sys, m, key)
  }

  function Pending(sys: System, client: string): seq<WorkResult> {
    if client in sys.running && sys.running[client].request.Request?
    then [Outcome(sys.running[client].request.handled)] else []
  }

  /** All a connection has answered, with the answer it is working on. */
  function Answers(sys: System, client: string): seq<WorkResult> {
    Log(sys.results, client) + Pending(sys, client)
  }

  lemma ForClientAppend(jobs: seq<Job>, results: seq<WorkResult>, job: Job, r: WorkResult, client: string)
    requires |jobs| == |results|
    ensures ForClient(jobs + [job], results + [r], client)
      == ForClient(jobs, results, client) + if job.client == client then [r] else []
  {
    assert (jobs + [job])[..|jobs|] == jobs && (results + [r])[..|results|] == results;
  }

  lemma MemoAllAppend(jobs: seq<Job>, job: Job)
    ensures var (m, rs) := MemoAll(jobs); var (n, r) := MemoProcess(m, job); MemoAll(jobs + [job]) == (n, rs + [r])
  {
    assert (jobs + [job])[..|jobs|] == jobs;
  }

  /** Once a request was checked, the fold has executed it and the system is about to. */
  lemma CheckedAhead(sys: System, n: System, job: Job, status: Status, m: Memo, k: Key)
    requires job.request.Request? && job.client !in sys.running && status != Busy
    requires (MemoOf(n.store), status) == MemoCheck(MemoOf(sys.store), job.Key())
    requires n.running == if status == New then sys.running[job.client := job] else sys.running
    requires AheadAt(sys, m, job.Key()) && AheadAt(sys, m, k)
    ensures AheadAt(n, MemoProcess(m, job).0, k)
  {
  }

  /** Taking a command does to the fold what it will have done to the system once it is finished. */
  lemma TakeAhead(sys: System, retention: nat, job: Job, m: Memo, since: Time)
    requires Consistent(sys) && Allowed(sys, Take(job)) && Recent(sys.store, since) && MemoAhead(sys, m)
    requires since <= job.checkedAt <= since + retention
    ensures var n := Next(sys, retention, Take(job));
      Recent(n.store, since) && MemoAhead(n, MemoProcess(m, job).0)
  {
    var n := Next(sys, retention, Take(job));
    TakeLogs(sys, retention, job, job.client);
    if job.request.Malformed? {
      forall k ensures AheadAt(n, m, k) {
        assert AheadAt(sys, m, k);
      }
    } else {
      CheckMemo(sys.store, retention, job.Key(), job.checkedAt, since);
      TakeNeverBusy(sys, retention, job);
      var status := CheckStore(sys.store, retention, job.Key(), job.checkedAt).1;
      forall k ensures AheadAt(n, MemoProcess(m, job).0, k) {
        CheckedAhead(sys, n, job, status, m, k);
      }
    }
  }

  lemma TakeAnswers(sys: System, retention: nat, job: Job, m: Memo, since: Time, client: string)
    requires Consistent(sys) && Allowed(sys, Take(job)) && Recent(sys.store, since) && MemoAhead(sys, m)
    requires since <= job.checkedAt <= since + retention
    ensures Answers(Next(sys, retention, Take(job)), client)
      == Answers(sys, client) + if client == job.client then [MemoProcess(m, job).1] else []
  {
    TakeLogs(sys, retention, job, client);
    if job.request.Request? {
      CheckMemo(sys.store, retention, job.Key(), job.checkedAt, since);
      TakeNeverBusy(sys, retention, job);
      assert AheadAt(sys, m, job.Key());
    }
  }

  /** Finishing a command brings the system up to the fold and adds no new answer. */
  lemma FinishAhead(sys: System, retention: nat, client: string, now: Time, m: Memo, since: Time)
    requires Consistent(sys) && client in sys.running && Recent(sys.store, since) && MemoAhead(sys, m) && since <= now
    ensures var n := Next(sys, retention, Finish(client, now));
      Recent(n.store, since) && MemoAhead(n, m)
  {
    var n := Next(sys, retention, Finish(client, now));
    var job := sys.running[client];
    FinishLogs(sys, retention, client, now, client);
    SettleMemo(sys.store, job.Key(), job.request.handled, now, since);
    forall k ensures AheadAt(n, m, k) {
      assert AheadAt(sys, m, k);
    }
  }

  lemma FinishAnswers(sys: System, retention: nat, client: string, now: Time, other: string)
    requires Consistent(sys) && client in sys.running
    ensures Answers(Next(sys, retention, Finish(client, now)), other) == Answers(sys, other)
  {
    FinishLogs(sys, retention, client, now, other);
  }

  predicate WithinRetention(step: Step, since: Time, retention: nat) {
    match step
    case Take(job) => Timely(job, since, retention)
    case Finish(_, now) => since <= now
  }

  /** The system has done, or is about to do, what the fold over `jobs` has done. */
  ghost predicate FoldAhead(sys: System, jobs: seq<Job>, since: Time) {
    && Recent(sys.store, since) && MemoAhead(sys, MemoAll(jobs).0)
    && forall client :: Answers(sys, client) == ForClient(jobs, MemoAll(jobs).1, client)
  }

  lemma TakeFold(sys: System, retention: nat, job: Job, jobs: seq<Job>, since: Time)
    requires Consistent(sys) && Allowed(sys, Take(job)) && FoldAhead(sys, jobs, since)
    requires since <= job.checkedAt <= since + retention
    ensures FoldAhead(Next(sys, retention, Take(job)), jobs + [job], since)
  {
    var (m, results) := MemoAll(jobs);
    var r := MemoProcess(m, job).1;
    TakeAhead(sys, retention, job, m, since);
    MemoAllAppend(jobs, job);
    forall client
      ensures Answers(Next(sys, retention, Take(job)), client) == ForClient(jobs + [job], results + [r], client)
    {
      TakeAnswers(sys, retention, job, m, since, client);
      ForClientAppend(jobs, results, job, r, client);
    }
  }

  lemma FinishFold(sys: System, retention: nat, client: string, now: Time, jobs: seq<Job>, since: Time)
    requires Consistent(sys) && client in sys.running && since <= now && FoldAhead(sys, jobs, since)
    ensures FoldAhead(Next(sys, retention, Finish(client, now)), jobs, since)
  {
    FinishAhead(sys, retention, client, now, MemoAll(jobs).0, since);
    forall other
      ensures Answers(Next(sys, retention, Finish(client, now)), other) == ForClient(jobs, MemoAll(jobs).1, other)
    {
      FinishAnswers(sys, retention, client, now, other);
    }
  }

  lemma StartFold(sys: System, since: Time)
    requires sys == System(Store(map[], since), map[], map[], map[])
    ensures FoldAhead(sys, [], since)
  {
    forall key ensures AheadAt(sys, map[], key) {
    }
  }

  lemma {:induction false} InterleavingAhead(states: seq<System>, steps: seq<Step>, retention: nat, since: Time, n: nat)
    requires Execution(states, steps, retention) && n <= |steps|
    requires states[0] == System(Store(map[], since), map[], map[], map[])
    requires forall i | 0 <= i < |steps| :: WithinRetention(steps[i], since, retention)
    ensures FoldAhead(states[n], Taken(steps[..n]), since)
    decreases n
  {
    if n == 0 {
      StartFold(states[0], since);
    } else {
      InterleavingAhead(states, steps, retention, since, n - 1);
      EveryConnectionAnswersInOrder(states, steps, retention, since, n - 1);
      var sys, step := states[n - 1], steps[n - 1];
      assert Allowed(sys, step) && states[n] == Next(sys, retention, step);
      assert WithinRetention(step, since, retention);
      assert steps[..n][..n - 1] == steps[..n - 1];
      var jobs := Taken(steps[..n - 1]);
      match step
      case Take(job) =>
        TakeFold(sys, retention, job, jobs, since);
      case Finish(client, now) =>
        FinishFold(sys, retention, client, now, jobs, since);
        assert jobs + [] == jobs;
    }
  }

  lemma {:induction false} TakenTimely(steps: seq<Step>, since: Time, retention: nat)
    requires forall i | 0 <= i < |steps| :: WithinRetention(steps[i], since, retention)
    ensures forall i | 0 <= i < |Taken(steps)| :: Timely(Taken(steps)[i], since, retention)
  {
    if steps != [] {
      TakenTimely(steps[..|steps| - 1], since, retention);
      assert WithinRetention(steps[|steps| - 1], since, retention);
    }
  }

  /** However the connections interleave within one retention period, each has
      answered, and is about to answer, just what a single worker's fold over the
      commands in the order they were taken answers for it. */
  lemma InterleavingIsFold(
    states: seq<System>, steps: seq<Step>, retention: nat, since: Time, n: nat, client: string)
    requires Execution(states, steps, retention) && n <= |steps|
    requires states[0] == System(Store(map[], since), map[], map[], map[])
    requires forall i | 0 <= i < |steps| :: WithinRetention(steps[i], since, retention)
    ensures var jobs := Taken(steps[..n]); var results := ProcessAll(Store(map[], since), retention, jobs).1;
      && |jobs| == |results|
      && Answers(states[n], client) == ForClient(jobs, results, client)
  {
    InterleavingAhead(states, steps, retention, since, n);
    TakenTimely(steps[..n], since, retention);
    FoldMemo(Taken(steps[..n]), retention, since);
  }
}
