/** One RPC call from bytes to reply, and the ordered worker of a connection. */
module RpcWorker {
  import opened Wrappers
  import opened Xdr
  import opened XdrRpc
  import opened TransactionTracker
  import opened WorkQueue

  const NFS_PROGRAM: u32 := 100003
  const NFS_VERSION: u32 := 3
  const PORTMAP_PROGRAM: u32 := 100000
  const MOUNT_PROGRAM: u32 := 100005

  /** A queued record, the clock readings around it, and what its handler would do. */
  datatype Command = Command(data: bytes, client: string, checkedAt: Time, recordedAt: Time, handler: Handled)

  // ---- one call ----------------------------------------------------------

  /** The call in a record: None for an undecodable record, a reply, or bad AUTH_UNIX credentials. */
  function ParseCall(data: bytes): Option<(u32, CallBody)> {
    var (msg, _) :- DecMsg(data);
    if msg.body.Reply? then None
    else
      var c := msg.body.call;
      if c.cred.flavor == AuthUnix && DecAuthUnix(c.cred.body).None? then None
      else Some((msg.xid, c))
  }

  /** Version check and dispatch by program number; only known programs reach their handler. */
  function Dispatch(xid: u32, c: CallBody, handler: Handled): Handled {
    if c.rpcvers != 2 then Replied(EncMsg(VersMismatch(xid)))
    else if c.prog == NFS_PROGRAM then
      if c.vers == NFS_VERSION then handler
      else Replied(EncMsg(AcceptedWith(xid, ProgMismatch(MismatchInfo(NFS_VERSION, NFS_VERSION)))))
    else if c.prog == PORTMAP_PROGRAM || c.prog == MOUNT_PROGRAM then handler
    else Replied(EncMsg(AcceptedWith(xid, ProgUnavail)))
  }

  /** The request a queued record carries. */
  function JobOf(cmd: Command): Job {
    var request := match ParseCall(cmd.data)
      case None => Malformed
      case Some((xid, c)) => Request(xid, Dispatch(xid, c, cmd.handler));
    Job(cmd.client, request, cmd.checkedAt, cmd.recordedAt)
  }

  function JobsOf(commands: seq<Command>): (jobs: seq<Job>)
    ensures |jobs| == |commands|
    ensures forall i | 0 <= i < |commands| :: jobs[i] == JobOf(commands[i])
  {
    seq(|commands|, i requires 0 <= i < |commands| => JobOf(commands[i]))
  }

  /** Version, program and unknown-program errors always carry a reply. */
  lemma OwnRepliesNonEmpty(xid: u32, c: CallBody, handler: Handled)
    ensures Dispatch(xid, c, handler) != handler ==>
      Dispatch(xid, c, handler).Replied? && Dispatch(xid, c, handler).output != []
  {
    MsgAligned(VersMismatch(xid));
    MsgAligned(AcceptedWith(xid, ProgMismatch(MismatchInfo(NFS_VERSION, NFS_VERSION))));
    MsgAligned(AcceptedWith(xid, ProgUnavail));
  }

  // ---- the worker --------------------------------------------------------

  class ResponseBuffer {
    var buffer: bytes
    var hasContent: bool

    constructor ()
      ensures buffer == [] && !hasContent
    {
      buffer, hasContent := [], false;
    }

    method Clear()
      modifies this
      ensures buffer == [] && !hasContent
    {
      buffer, hasContent := [], false;
    }

    method MarkHasContent()
      modifies this
      ensures hasContent && buffer == old(buffer)
    {
      hasContent := true;
    }
  }

  datatype RpcOutcome = Respond(xid: u32, recordResponse: bool) | DropRequest | Fault

  /** Handles one record, writing into `output`; a failed handler may leave part of a reply there. */
  method HandleRpc(tracker: Tracker, cmd: Command, output: ResponseBuffer) returns (outcome: RpcOutcome)
    requires tracker.Valid() && output.buffer == []
    modifies tracker, output
    ensures tracker.Valid()
    ensures var job := JobOf(cmd);
      if job.request.Malformed? then outcome == Fault && tracker.View() == old(tracker.View())
      else
        var xid := job.request.xid;
        var (checked, status) := CheckStore(old(tracker.View()), tracker.retention, job.Key(), cmd.checkedAt);
        match status
        case Replay(response) =>
          outcome == Respond(xid, false) && output.buffer == response && tracker.View() == checked
        case Busy => outcome == DropRequest && tracker.View() == checked
        case New =>
          match job.request.handled
          case Replied(b) => outcome == Respond(xid, true) && output.buffer == b && tracker.View() == checked
          case Failed(_) => outcome == Fault && tracker.View() == ClearStore(checked, job.Key())
  {
    var src := new Reader(cmd.data);
    var msg := DeserializeMsg(src);
    if msg.None? || msg.value.body.Reply? {
      return Fault;
    }
    var xid, call := msg.value.xid, msg.value.body.call;
    if call.cred.flavor == AuthUnix {
      var credentials := new Reader(call.cred.body);
      var auth := DeserializeAuthUnix(credentials);
      if auth.None? {
        return Fault;
      }
    }
    var key := Key(xid, cmd.client);
    var status := tracker.Check(key, cmd.checkedAt);
    match status {
      case Replay(response) =>
        output.buffer := response;
        return Respond(xid, false);
      case Busy => return DropRequest;
      case New =>
    }
    if call.rpcvers != 2 {
      output.buffer := EncMsg(VersMismatch(xid));
      return Respond(xid, true);
    }
    if call.prog == NFS_PROGRAM && call.vers != NFS_VERSION {
      output.buffer := EncMsg(AcceptedWith(xid, ProgMismatch(MismatchInfo(NFS_VERSION, NFS_VERSION))));
    } else if call.prog == NFS_PROGRAM || call.prog == PORTMAP_PROGRAM || call.prog == MOUNT_PROGRAM {
      match cmd.handler {
        case Replied(b) => output.buffer := b;
        case Failed(partial) =>
          output.buffer := partial;
          tracker.Clear(key);
          return Fault;
      }
    } else {
      output.buffer := EncMsg(AcceptedWith(xid, ProgUnavail));
    }
    return Respond(xid, true);
  }

  /** Ok(true): a response is in `output`; Ok(false): none is needed. */
  method ProcessRpcCommand(tracker: Tracker, cmd: Command, output: ResponseBuffer) returns (r: Result<bool, ()>)
    requires tracker.Valid() && output.buffer == []
    modifies tracker, output
    ensures tracker.Valid()
    ensures var (t, result) := Process(old(tracker.View()), tracker.retention, JobOf(cmd));
      && tracker.View() == t
      && match result
        case Send(b) => r == Ok(true) && output.buffer == b
        case NoReply => r == Ok(false)
        case Failure => r == Error(())
  {
    var outcome := HandleRpc(tracker, cmd, output);
    match outcome {
      case Respond(xid, recordResponse) =>
        if recordResponse && output.buffer != [] {
          tracker.RecordResponse(Key(xid, cmd.client), output.buffer, cmd.recordedAt);
        }
        return Ok(true);
      case DropRequest => return Ok(false);
      case Fault => return Error(());
    }
  }

  /** One turn of the worker: the buffer is cleared first and replaced once it is handed on. */
  method WorkOne(tracker: Tracker, cmd: Command, output: ResponseBuffer)
    returns (result: WorkResult, next: ResponseBuffer)
    requires tracker.Valid()
    modifies tracker, output
    ensures tracker.Valid() && (next == output || fresh(next))
    ensures (tracker.View(), result) == Process(old(tracker.View()), tracker.retention, JobOf(cmd))
  {
    next := output;
    output.Clear();
    var r := ProcessRpcCommand(tracker, cmd, output);
    match r {
      case Ok(true) =>
        output.MarkHasContent();
        result := Send(output.buffer);
        next := new ResponseBuffer();
      case Ok(false) => result := NoReply;
      case Error(_) => result := Failure;
    }
  }

  /** The worker loop: one reused buffer, replaced whenever it is handed on. Its
      results are those of the fold, so nothing a failed or dropped command left
      in the buffer reaches a later reply. */
  method RunWorker(tracker: Tracker, commands: seq<Command>) returns (results: seq<WorkResult>)
    requires tracker.Valid()
    modifies tracker
    ensures tracker.Valid()
    ensures (tracker.View(), results) == ProcessAll(old(tracker.View()), tracker.retention, JobsOf(commands))
  {
    ghost var jobs := JobsOf(commands);
    ghost var all := ProcessAll(tracker.View(), tracker.retention, jobs);
    results := [];
    assert jobs[0..] == jobs && [] + all.1 == all.1;
    var output := new ResponseBuffer();
    var i := 0;
    while i < |commands|
      invariant 0 <= i <= |commands| && tracker.Valid() && fresh(output)
      invariant Continues(all, tracker.View(), tracker.retention, jobs[i..], results)
    {
      var result;
      ghost var s := tracker.View();
      result, output := WorkOne(tracker, commands[i], output);
      ContinuesStep(all, s, tracker.retention, jobs[i..], results);
      assert jobs[i..][1..] == jobs[i + 1..];
      results := results + [result];
      i := i + 1;
    }
    assert jobs[i..] == [] && results + [] == results;
  }

  /** The fold over the remaining jobs completes `results` to `all`. */
  ghost predicate Continues(
    all: (Store, seq<WorkResult>), s: Store, retention: nat, jobs: seq<Job>, results: seq<WorkResult>)
  {
    var (u, rs) := ProcessAll(s, retention, jobs);
    all == (u, results + rs)
  }

  lemma ContinuesStep(
    all: (Store, seq<WorkResult>), s: Store, retention: nat, jobs: seq<Job>, results: seq<WorkResult>)
    requires jobs != [] && Continues(all, s, retention, jobs, results)
    ensures var (t, r) := Process(s, retention, jobs[0]); Continues(all, t, retention, jobs[1..], results + [r])
  {
    var (t, r) := Process(s, retention, jobs[0]);
    var rs := ProcessAll(t, retention, jobs[1..]).1;
    assert results + ([r] + rs) == results + [r] + rs;
  }
}
