/** Ordered execution of requests over the duplicate request cache: one queue as
    a left fold, and all connections interleaved over the shared store. */
module WorkQueue {
  import opened Wrappers
  import opened TransactionTracker

  /** What executing a request writes, and whether it succeeds. */
  datatype Handled = Replied(output: bytes) | Failed(partial: bytes)

  datatype Request = Malformed | Request(xid: u32, handled: Handled)

  /** A request of one client with the clock readings around its execution. */
  datatype Job = Job(client: string, request: Request, checkedAt: Time, recordedAt: Time) {
    function Key(): Key
      requires request.Request?
    {
      TransactionTracker.Key.Key(request.xid, client)
    }
  }

  datatype WorkResult = Send(output: bytes) | NoReply | Failure

  function Settle(s: Store, key: Key, handled: Handled, now: Time): (Store, WorkResult) {
    match handled
    case Replied(output) => (if output == [] then s else RecordStore(s, key, output, now), Send(output))
    case Failed(_) => (ClearStore(s, key), Failure)
  }

  function Process(s: Store, retention: nat, job: Job): (Store, WorkResult) {
    if job.request.Malformed? then (s, Failure)
    else
      var (checked, status) := CheckStore(s, retention, job.Key(), job.checkedAt);
      match status
      case Replay(response) => (checked, Send(response))
      case Busy => (checked, NoReply)
      case New => Settle(checked, job.Key(), job.request.handled, job.recordedAt)
  }

  /** A plain left fold over the requests of a queue. */
  function ProcessAll(s: Store, retention: nat, jobs: seq<Job>): (Store, seq<WorkResult>)
    decreases jobs
  {
    if jobs == [] then (s, [])
    else
      var (t, r) := Process(s, retention, jobs[0]);
      var (u, rs) := ProcessAll(t, retention, jobs[1..]);
      (u, [r] + rs)
  }

  // ---- repeated requests -------------------------------------------------

  /** Two jobs carry the same request when they agree on xid and client. */
  predicate SameRequest(a: Job, b: Job) {
    a.request.Request? && b.request.Request? && a.Key() == b.Key()
  }

  predicate Executes(s: Store, retention: nat, job: Job) {
    job.request.Request? && CheckStore(s, retention, job.Key(), job.checkedAt).1 == New
  }

  /** The store has `reply` for `key`, used at `since` or later. */
  ghost predicate Holds(s: Store, key: Key, reply: bytes, since: Time) {
    key in s.txs && s.txs[key].Completed? && s.txs[key].response == reply && s.txs[key].time >= since
  }

  lemma {:induction false} ReplyHeld(
    s: Store, retention: nat, jobs: seq<Job>, key: Key, reply: bytes, since: Time)
    requires Holds(s, key, reply, since)
    requires forall i | 0 <= i < |jobs| :: since <= jobs[i].checkedAt <= since + retention
    ensures Holds(ProcessAll(s, retention, jobs).0, key, reply, since)
    decreases jobs
  {
    if jobs != [] {
      assert Holds(Process(s, retention, jobs[0]).0, key, reply, since);
      ReplyHeld(Process(s, retention, jobs[0]).0, retention, jobs[1..], key, reply, since);
    }
  }

  /** A retransmission within the retention period gets exactly the bytes of the
      first reply, whatever commands were processed in between. */
  lemma RetransmissionReplays(s: Store, retention: nat, first: Job, between: seq<Job>, second: Job)
    requires Executes(s, retention, first) && SameRequest(first, second)
    requires forall i | 0 <= i < |between| ::
      first.recordedAt <= between[i].checkedAt <= first.recordedAt + retention
    requires first.recordedAt <= second.checkedAt <= first.recordedAt + retention
    ensures var (t, r) := Process(s, retention, first);
      r.Send? && r.output != [] ==> Process(ProcessAll(t, retention, between).0, retention, second).1 == r
  {
    var (t, r) := Process(s, retention, first);
    if r.Send? && r.output != [] {
      ReplyHeld(t, retention, between, first.Key(), r.output, first.recordedAt);
    }
  }

  /** A retransmission straight after an execution is dropped exactly when the
      handler replied with no bytes at all: such a request stays unfinished. */
  lemma DroppedIffEmptyReply(s: Store, retention: nat, first: Job, second: Job)
    requires Executes(s, retention, first) && SameRequest(first, second)
    ensures var (t, r) := Process(s, retention, first);
      Process(t, retention, second).1 == NoReply <==> r == Send([])
  {
  }

  // ---- all connections ---------------------------------------------------

  /** The shared store, the command each connection is executing, and per
      connection the commands taken off its queue and the results handed on. */
  datatype System = System(
    store: Store,
    running: map<string, Job>,
    taken: map<string, seq<Job>>,
    results: map<string, seq<WorkResult>>)

  datatype Step = Take(job: Job) | Finish(client: string, now: Time)

  function Log<T>(m: map<string, seq<T>>, client: string): seq<T> {
    if client in m then m[client] else []
  }

  predicate NonEmptyReply(job: Job) {
    job.request.Request? && job.request.handled.Replied? ==> job.request.handled.output != []
  }

  /** A worker takes its next command only when it has finished the one before. */
  predicate Allowed(sys: System, step: Step) {
    match step
    case Take(job) => job.client !in sys.running && NonEmptyReply(job)
    case Finish(client, _) => client in sys.running
  }

  function Answer(sys: System, client: string, store: Store, r: WorkResult): System {
    sys.(store := store, results := sys.results[client := Log(sys.results, client) + [r]])
  }

  function Next(sys: System, retention: nat, step: Step): System
    requires Allowed(sys, step)
    requires step.Finish? ==> sys.running[step.client].request.Request?
  {
    match step
    case Take(job) =>
      var took := sys.(taken := sys.taken[job.client := Log(sys.taken, job.client) + [job]]);
      if job.request.Malformed? then Answer(took, job.client, sys.store, Failure)
      else
        var (checked, status) := CheckStore(sys.store, retention, job.Key(), job.checkedAt);
        (match status
         case Replay(response) => Answer(took, job.client, checked, Send(response))
         case Busy => Answer(took, job.client, checked, NoReply)
         case New => took.(store := checked, running := sys.running[job.client := job]))
    case Finish(client, now) =>
      var job := sys.running[client];
      var (settled, r) := Settle(sys.store, Key(job.request.xid, client), job.request.handled, now);
      Answer(sys, client, settled, r).(running := sys.running - {client})
  }

  predicate Unfinished(s: Store, key: Key) {
    key in s.txs && s.txs[key] == InProgress
  }

  /** The unfinished entries of the store are exactly the commands being executed. */
  ghost predicate Consistent(sys: System) {
    && (forall client | client in sys.running ::
      && sys.running[client].client == client && sys.running[client].request.Request?
      && NonEmptyReply(sys.running[client])
      && Unfinished(sys.store, sys.running[client].Key()))
    && (forall key | Unfinished(sys.store, key) ::
      key.client in sys.running && sys.running[key.client].Key() == key)
  }

  /** Every connection's results line up with the commands it took, none of them a drop. */
  ghost predicate InOrder(sys: System) {
    forall client ::
      && |Log(sys.taken, client)| == |Log(sys.results, client)| + (if client in sys.running then 1 else 0)
      && (client in sys.running ==>
        Log(sys.taken, client) != [] && Log(sys.taken, client)[|Log(sys.results, client)|] == sys.running[client])
      && NoReply !in Log(sys.results, client)
  }

  /** A check starts an entry exactly when it answers New, and leaves the unfinished ones alone. */
  lemma CheckUnfinished(s: Store, retention: nat, key: Key, now: Time)
    ensures var (t, status) := CheckStore(s, retention, key, now);
      && (forall k :: Unfinished(t, k) <==> Unfinished(s, k) || (k == key && status == New))
      && (Unfinished(s, key) ==> status == Busy)
  {
  }

  lemma SameUnfinished(sys: System, n: System)
    requires Consistent(sys) && n.running == sys.running
    requires forall k :: Unfinished(n.store, k) <==> Unfinished(sys.store, k)
    ensures Consistent(n)
  {
    forall client | client in n.running ensures Unfinished(n.store, n.running[client].Key()) {
      assert Unfinished(sys.store, sys.running[client].Key());
    }
    forall key | Unfinished(n.store, key) ensures key.client in n.running && n.running[key.client].Key() == key {
      assert Unfinished(sys.store, key);
    }
  }

  lemma StartConsistent(sys: System, n: System, job: Job)
    requires Consistent(sys) && Allowed(sys, Take(job)) && job.request.Request?
    requires n.running == sys.running[job.client := job]
    requires forall k :: Unfinished(n.store, k) <==> Unfinished(sys.store, k) || k == job.Key()
    ensures Consistent(n)
  {
    forall client | client in n.running ensures Unfinished(n.store, n.running[client].Key()) {
      assert client != job.client ==> Unfinished(sys.store, sys.running[client].Key());
    }
    forall key | Unfinished(n.store, key) ensures key.client in n.running && n.running[key.client].Key() == key {
      assert key != job.Key() ==> Unfinished(sys.store, key);
    }
  }

  lemma TakeConsistent(sys: System, retention: nat, job: Job)
    requires Consistent(sys) && Allowed(sys, Take(job))
    ensures Consistent(Next(sys, retention, Take(job)))
  {
    var n := Next(sys, retention, Take(job));
    if job.request.Malformed? {
      SameUnfinished(sys, n);
    } else {
      CheckUnfinished(sys.store, retention, job.Key(), job.checkedAt);
      if CheckStore(sys.store, retention, job.Key(), job.checkedAt).1 == New {
        StartConsistent(sys, n, job);
      } else {
        SameUnfinished(sys, n);
      }
    }
  }

  /** Settling a command ends its entry and no other. */
  lemma FinishConsistent(sys: System, retention: nat, client: string, now: Time)
    requires Consistent(sys) && client in sys.running
    ensures Consistent(Next(sys, retention, Finish(client, now)))
  {
    var n := Next(sys, retention, Finish(client, now));
    var key := sys.running[client].Key();
    forall k ensures Unfinished(n.store, k) <==> Unfinished(sys.store, k) && k != key {
    }
    forall other | other in n.running ensures Unfinished(n.store, n.running[other].Key()) {
      assert Unfinished(sys.store, sys.running[other].Key());
    }
    forall k | Unfinished(n.store, k) ensures k.client in n.running && n.running[k.client].Key() == k {
      assert Unfinished(sys.store, k);
    }
  }

  lemma NextConsistent(sys: System, retention: nat, step: Step)
    requires Consistent(sys) && Allowed(sys, step)
    ensures Consistent(Next(sys, retention, step))
  {
    match step
    case Take(job) => TakeConsistent(sys, retention, job);
    case Finish(client, now) => FinishConsistent(sys, retention, client, now);
  }

  /** When a worker takes a command no entry of its client is unfinished, so the
      command is never dropped, however the other connections interleave. */
  lemma TakeNeverBusy(sys: System, retention: nat, job: Job)
    requires Consistent(sys) && Allowed(sys, Take(job))
    ensures forall key | key in sys.store.txs && key.client == job.client :: sys.store.txs[key].Completed?
    ensures job.request.Request? ==> CheckStore(sys.store, retention, job.Key(), job.checkedAt).1 != Busy
  {
    forall key | key in sys.store.txs && key.client == job.client ensures sys.store.txs[key].Completed? {
      assert !Unfinished(sys.store, key);
    }
  }

  lemma NextInOrder(sys: System, retention: nat, step: Step)
    requires Consistent(sys) && InOrder(sys) && Allowed(sys, step)
    ensures InOrder(Next(sys, retention, step))
  {
    var n := Next(sys, retention, step);
    var client := if step.Take? then step.job.client else step.client;
    if step.Take? {
      TakeNeverBusy(sys, retention, step.job);
    }
    forall other
      ensures |Log(n.taken, other)| == |Log(n.results, other)| + (if other in n.running then 1 else 0)
      ensures other in n.running ==>
        Log(n.taken, other) != [] && Log(n.taken, other)[|Log(n.results, other)|] == n.running[other]
      ensures NoReply !in Log(n.results, other)
    {
      if other != client {
        assert Log(n.taken, other) == Log(sys.taken, other) && Log(n.results, other) == Log(sys.results, other);
      }
    }
  }

  /** The connection's `j`-th command was this request, and executing it produced `output`. */
  ghost predicate Produced(sys: System, key: Key, output: bytes, j: nat) {
    && j < |Log(sys.taken, key.client)|
    && Log(sys.taken, key.client)[j].request == Request(key.xid, Replied(output))
  }

  /** Every stored reply was produced by an execution of its own request, and so
      was every reply a connection gave: by that command or an earlier duplicate. */
  ghost predicate Genuine(sys: System) {
    && (forall key | key in sys.store.txs && sys.store.txs[key].Completed? ::
      exists j :: Produced(sys, key, sys.store.txs[key].response, j))
    && (forall client, i | 0 <= i < |Log(sys.results, client)| && i < |Log(sys.taken, client)| ::
      GenuineAnswer(sys, client, Log(sys.taken, client)[i], Log(sys.results, client)[i], i))
  }

  ghost predicate GenuineAnswer(sys: System, client: string, job: Job, r: WorkResult, i: nat) {
    match r
    case Failure => job.request.Malformed? || job.request.handled.Failed?
    case NoReply => true
    case Send(output) =>
      job.request.Request? && exists j: nat :: j <= i && Produced(sys, Key(job.request.xid, client), output, j)
  }

  lemma ProducedStays(sys: System, n: System, key: Key, output: bytes, j: nat)
    requires Produced(sys, key, output, j) && Log(sys.taken, key.client) <= Log(n.taken, key.client)
    ensures Produced(n, key, output, j)
  {
  }

  lemma AnswersStay(sys: System, n: System, client: string, i: nat)
    requires Genuine(sys) && i < |Log(sys.results, client)| && i < |Log(sys.taken, client)|
    requires Log(sys.taken, client) <= Log(n.taken, client) && Log(sys.results, client) <= Log(n.results, client)
    ensures GenuineAnswer(n, client, Log(n.taken, client)[i], Log(n.results, client)[i], i)
  {
    var job, r := Log(sys.taken, client)[i], Log(sys.results, client)[i];
    assert Log(n.taken, client)[i] == job && Log(n.results, client)[i] == r;
    assert GenuineAnswer(sys, client, job, r, i);
    if r.Send? {
      var key := Key(job.request.xid, client);
      var j: nat :| j <= i && Produced(sys, key, r.output, j);
      ProducedStays(sys, n, key, r.output, j);
    }
  }

  lemma StoredStays(sys: System, n: System, key: Key, output: bytes)
    requires exists j :: Produced(sys, key, output, j)
    requires Log(sys.taken, key.client) <= Log(n.taken, key.client)
    ensures exists j :: Produced(n, key, output, j)
  {
    var j :| Produced(sys, key, output, j);
    ProducedStays(sys, n, key, output, j);
  }

  /** The answer a command gets when it is taken, if it need not be executed. */
  function AtOnce(sys: System, retention: nat, job: Job): Option<WorkResult> {
    if job.request.Malformed? then Some(Failure)
    else
      match CheckStore(sys.store, retention, job.Key(), job.checkedAt).1
      case Replay(response) => Some(Send(response))
      case Busy => Some(NoReply)
      case New => None
  }

  lemma TakeLogs(sys: System, retention: nat, job: Job, client: string)
    requires Allowed(sys, Take(job))
    ensures var n := Next(sys, retention, Take(job)); var answer := AtOnce(sys, retention, job);
      && Log(n.taken, client) == Log(sys.taken, client) + (if client == job.client then [job] else [])
      && Log(n.results, client)
        == Log(sys.results, client) + (if client == job.client && answer.Some? then [answer.value] else [])
      && n.running == (if answer.Some? then sys.running else sys.running[job.client := job])
      && n.store == (if job.request.Malformed? then sys.store
                     else CheckStore(sys.store, retention, job.Key(), job.checkedAt).0)
  {
  }

  lemma FinishLogs(sys: System, retention: nat, client: string, now: Time, other: string)
    requires Consistent(sys) && client in sys.running
    ensures var n := Next(sys, retention, Finish(client, now)); var job := sys.running[client];
      && n.taken == sys.taken && n.running == sys.running - {client}
      && Log(n.results, other)
        == Log(sys.results, other)
         + (if other == client then [Settle(sys.store, job.Key(), job.request.handled, now).1] else [])
      && n.store == Settle(sys.store, job.Key(), job.request.handled, now).0
  {
  }

  lemma LogsGrow(sys: System, retention: nat, step: Step, client: string)
    requires Consistent(sys) && Allowed(sys, step)
    ensures Log(sys.taken, client) <= Log(Next(sys, retention, step).taken, client)
    ensures Log(sys.results, client) <= Log(Next(sys, retention, step).results, client)
    ensures |Log(Next(sys, retention, step).results, client)| <= |Log(sys.results, client)| + 1
  {
    match step
    case Take(job) => TakeLogs(sys, retention, job, client);
    case Finish(finished, now) => FinishLogs(sys, retention, finished, now, client);
  }

  lemma CheckKeepsReplies(s: Store, retention: nat, key: Key, now: Time, k: Key)
    ensures var t := CheckStore(s, retention, key, now).0;
      k in t.txs && t.txs[k].Completed? ==>
        k in s.txs && s.txs[k].Completed? && t.txs[k].response == s.txs[k].response
    ensures var status := CheckStore(s, retention, key, now).1;
      status.Replay? ==> key in s.txs && s.txs[key].Completed? && s.txs[key].response == status.response
  {
  }

  lemma ReplyGenuine(sys: System, n: System, retention: nat, job: Job, i: nat)
    requires Genuine(sys) && Allowed(sys, Take(job)) && AtOnce(sys, retention, job).Some?
    requires Log(sys.taken, job.client) <= Log(n.taken, job.client) && i >= |Log(sys.taken, job.client)|
    ensures GenuineAnswer(n, job.client, job, AtOnce(sys, retention, job).value, i)
  {
    var answer := AtOnce(sys, retention, job).value;
    if answer.Send? {
      var key := job.Key();
      CheckKeepsReplies(sys.store, retention, key, job.checkedAt, key);
      var j :| Produced(sys, key, answer.output, j);
      ProducedStays(sys, n, key, answer.output, j);
    }
  }

  lemma TakeGenuine(sys: System, retention: nat, job: Job)
    requires Consistent(sys) && InOrder(sys) && Genuine(sys) && Allowed(sys, Take(job))
    ensures Genuine(Next(sys, retention, Take(job)))
  {
    var n := Next(sys, retention, Take(job));
    forall key | key in n.store.txs && n.store.txs[key].Completed?
      ensures exists j :: Produced(n, key, n.store.txs[key].response, j)
    {
      TakeLogs(sys, retention, job, key.client);
      if job.request.Request? {
        CheckKeepsReplies(sys.store, retention, job.Key(), job.checkedAt, key);
      }
      StoredStays(sys, n, key, n.store.txs[key].response);
    }
    forall client, i | 0 <= i < |Log(n.results, client)| && i < |Log(n.taken, client)|
      ensures GenuineAnswer(n, client, Log(n.taken, client)[i], Log(n.results, client)[i], i)
    {
      TakeLogs(sys, retention, job, client);
      if i < |Log(sys.results, client)| {
        AnswersStay(sys, n, client, i);
      } else {
        ReplyGenuine(sys, n, retention, job, i);
      }
    }
  }

  lemma FinishGenuine(sys: System, retention: nat, client: string, now: Time)
    requires Consistent(sys) && InOrder(sys) && Genuine(sys) && client in sys.running
    ensures Genuine(Next(sys, retention, Finish(client, now)))
  {
    var n := Next(sys, retention, Finish(client, now));
    var job := sys.running[client];
    var handled := job.request.handled;
    var at := |Log(sys.results, client)|;
    LogsGrow(sys, retention, Finish(client, now), client);
    assert Log(n.taken, client)[at] == job;
    if handled.Replied? {
      assert Produced(n, Key(job.request.xid, client), handled.output, at);
    }
    forall key | key in n.store.txs && n.store.txs[key].Completed?
      ensures exists j :: Produced(n, key, n.store.txs[key].response, j)
    {
      LogsGrow(sys, retention, Finish(client, now), key.client);
      if key != Key(job.request.xid, client) {
        StoredStays(sys, n, key, n.store.txs[key].response);
      }
    }
    forall other, i | 0 <= i < |Log(n.results, other)| && i < |Log(n.taken, other)|
      ensures GenuineAnswer(n, other, Log(n.taken, other)[i], Log(n.results, other)[i], i)
    {
      LogsGrow(sys, retention, Finish(client, now), other);
      if i < |Log(sys.results, other)| {
        AnswersStay(sys, n, other, i);
      }
    }
  }

  ghost predicate Execution(states: seq<System>, steps: seq<Step>, retention: nat) {
    && |states| == |steps| + 1
    && forall i | 0 <= i < |steps| ::
      Allowed(states[i], steps[i]) && (Consistent(states[i]) ==> states[i + 1] == Next(states[i], retention, steps[i]))
  }

  /** Over any interleaving of any connections: the unfinished entries are the
      running commands, each connection answers its commands one by one in the
      order taken and drops none, and every reply was produced by its request. */
  lemma {:induction false} EveryConnectionAnswersInOrder(
    states: seq<System>, steps: seq<Step>, retention: nat, start: Time, n: nat)
    requires Execution(states, steps, retention) && n <= |steps|
    requires states[0] == System(Store(map[], start), map[], map[], map[])
    ensures Consistent(states[n]) && InOrder(states[n]) && Genuine(states[n])
    decreases n
  {
    if n > 0 {
      EveryConnectionAnswersInOrder(states, steps, retention, start, n - 1);
      var sys, step := states[n - 1], steps[n - 1];
      assert Allowed(sys, step) && states[n] == Next(sys, retention, step);
      NextConsistent(sys, retention, step);
      NextInOrder(sys, retention, step);
      match step
      case Take(job) => TakeGenuine(sys, retention, job);
      case Finish(client, now) => FinishGenuine(sys, retention, client, now);
    }
  }

  /** A connection left alone between taking and finishing does what the fold does. */
  lemma TakeFinishIsProcess(sys: System, retention: nat, job: Job)
    requires Consistent(sys) && Allowed(sys, Take(job))
    ensures var (t, r) := Process(sys.store, retention, job);
      var took := Next(sys, retention, Take(job));
      var done :=
        if job.client in took.running then Next(took, retention, Finish(job.client, job.recordedAt)) else took;
      && done.store == t && done.running == sys.running
      && Log(done.results, job.client) == Log(sys.results, job.client) + [r]
  {
  }
}
