/** The duplicate request cache: one state per (xid, client), with timed eviction. */
module TransactionTracker {
  import opened Wrappers

  const SECOND: nat := 1_000_000_000

  /** Times and durations in nanoseconds; a clock reading may be any integer. */
  type Time = int

  datatype Key = Key(xid: u32, client: string)

  datatype TxState = InProgress | Completed(time: Time, response: bytes)

  datatype Status = New | Busy | Replay(response: bytes)

  datatype Store = Store(txs: map<Key, TxState>, last: Time)

  // ---- the tracker's transitions -----------------------------------------

  /** How long the tracker waits between two sweeps. */
  function Interval(retention: nat): nat {
    if retention < SECOND then retention else Max(SECOND, retention / 4)
  }

  lemma IntervalWithinRetention(retention: nat)
    ensures Interval(retention) <= retention
    ensures retention >= SECOND ==> Interval(retention) >= SECOND
  {
  }

  /** A clock that went backwards counts as due. */
  predicate ShouldHousekeep(last: Time, now: Time, interval: nat) {
    now < last || now - last >= interval
  }

  predicate Retained(v: TxState, cutoff: Time) {
    v.InProgress? || v.time >= cutoff
  }

  function Sweep(txs: map<Key, TxState>, cutoff: Time): map<Key, TxState> {
    map k | k in txs && Retained(txs[k], cutoff) :: txs[k]
  }

  function Housekept(s: Store, retention: nat, now: Time): Store {
    if s.txs != map[] && ShouldHousekeep(s.last, now, Interval(retention))
    then Store(Sweep(s.txs, now - retention), now)
    else s
  }

  function CheckStore(s: Store, retention: nat, key: Key, now: Time): (Store, Status) {
    var h := Housekept(s, retention, now);
    if key !in h.txs then (h.(txs := h.txs[key := InProgress]), New)
    else
      match h.txs[key]
      case InProgress => (h, Busy)
      case Completed(_, response) => (h.(txs := h.txs[key := Completed(now, response)]), Replay(response))
  }

  function RecordStore(s: Store, key: Key, response: bytes, now: Time): Store {
    s.(txs := s.txs[key := Completed(now, response)])
  }

  function ClearStore(s: Store, key: Key): Store {
    s.(txs := s.txs - {key})
  }

  class Tracker {
    const retention: nat
    const interval: nat
    var transactions: map<Key, TxState>
    var lastHousekeeping: Time

    ghost predicate Valid()
    {
      interval == Interval(retention)
    }

    ghost function View(): Store
      reads this
    {
      Store(transactions, lastHousekeeping)
    }

    constructor (retention: nat, now: Time)
      ensures Valid() && this.retention == retention && View() == Store(map[], now)
    {
      this.retention := retention;
      interval := if retention < SECOND then retention else Max(SECOND, retention / 4);
      transactions := map[];
      lastHousekeeping := now;
    }

    method Housekeeping(now: Time)
      modifies this
      ensures transactions == Sweep(old(transactions), now - retention) && lastHousekeeping == old(lastHousekeeping)
    {
      var cutoff := now - retention;
      var unseen := transactions.Keys;
      ghost var before := transactions;
      while unseen != {}
        invariant unseen <= before.Keys && lastHousekeeping == old(lastHousekeeping)
        invariant forall k :: k in transactions <==> k in before && (k in unseen || Retained(before[k], cutoff))
        invariant forall k | k in transactions :: transactions[k] == before[k]
        decreases |unseen|
      {
        var k :| k in unseen;
        unseen := unseen - {k};
        if !Retained(transactions[k], cutoff) {
          transactions := transactions - {k};
        }
      }
    }

    method Check(key: Key, now: Time) returns (status: Status)
      requires Valid()
      modifies this
      ensures Valid() && (View(), status) == CheckStore(old(View()), retention, key, now)
    {
      if transactions != map[] && ShouldHousekeep(lastHousekeeping, now, interval) {
        Housekeeping(now);
        lastHousekeeping := now;
      }
      if key !in transactions {
        transactions := transactions[key := InProgress];
        return New;
      }
      match transactions[key] {
        case InProgress => return Busy;
        case Completed(_, response) =>
          transactions := transactions[key := Completed(now, response)];
          return Replay(response);
      }
    }

    method RecordResponse(key: Key, response: bytes, now: Time)
      modifies this
      ensures View() == RecordStore(old(View()), key, response, now)
    {
      transactions := transactions[key := Completed(now, response)];
    }

    method Clear(key: Key)
      modifies this
      ensures View() == ClearStore(old(View()), key)
    {
      transactions := transactions - {key};
    }
  }

  // ---- histories ---------------------------------------------------------

  /** One tracker call with its clock reading and, for a check, its answer. */
  datatype Event =
    | Checked(key: Key, now: Time, status: Status)
    | Recorded(key: Key, now: Time, response: bytes)
    | Cleared(key: Key, now: Time)

  predicate Happens(s: Store, retention: nat, e: Event, t: Store) {
    match e
    case Checked(key, now, status) => CheckStore(s, retention, key, now) == (t, status)
    case Recorded(key, now, response) => t == RecordStore(s, key, response, now)
    case Cleared(key, _) => t == ClearStore(s, key)
  }

  /** A history of interleaved calls by any clients, under a clock that never goes back. */
  predicate History(stores: seq<Store>, log: seq<Event>, retention: nat, start: Time) {
    && |stores| == |log| + 1
    && stores[0] == Store(map[], start)
    && (forall i | 0 <= i < |log| :: Happens(stores[i], retention, log[i], stores[i + 1]))
    && (forall i | 0 <= i < |log| :: start <= log[i].now)
    && (forall i, j | 0 <= i < j < |log| :: log[i].now <= log[j].now)
  }

  /** The last call about `key` among the first `n`, or -1. */
  function LastTouch(log: seq<Event>, key: Key, n: nat): (i: int)
    requires n <= |log|
    ensures -1 <= i < n
    ensures i >= 0 ==> log[i].key == key
    ensures forall j | i < j < n :: log[j].key != key
  {
    if n == 0 then -1
    else if log[n - 1].key == key then n - 1
    else LastTouch(log, key, n - 1)
  }

  /** What the store must hold for `key` when `e` was the last call about it, at clock `now`. */
  predicate Explains(e: Event, s: Store, key: Key, retention: nat, now: Time) {
    match e
    case Cleared(_, _) => key !in s.txs
    case Checked(_, _, New) => key in s.txs && s.txs[key] == InProgress
    case Checked(_, _, Busy) => key in s.txs && s.txs[key] == InProgress
    case Checked(_, time, Replay(response)) => Remembered(s, key, time, response, retention, now)
    case Recorded(_, time, response) => Remembered(s, key, time, response, retention, now)
  }

  /** The response is still stored, or it has been quiet for longer than the retention period. */
  predicate Remembered(s: Store, key: Key, time: Time, response: bytes, retention: nat, now: Time) {
    if key in s.txs then s.txs[key] == Completed(time, response) else time < now - retention
  }

  predicate Explained(log: seq<Event>, n: nat, s: Store, key: Key, retention: nat, now: Time)
    requires n <= |log|
  {
    var i := LastTouch(log, key, n);
    if i < 0 then key !in s.txs else Explains(log[i], s, key, retention, now)
  }

  function Clock(log: seq<Event>, n: nat, start: Time): Time
    requires n <= |log|
  {
    if n == 0 then start else log[n - 1].now
  }

  lemma HousekeptExplains(e: Event, s: Store, key: Key, retention: nat, before: Time, now: Time)
    requires before <= now && Explains(e, s, key, retention, before)
    ensures Explains(e, Housekept(s, retention, now), key, retention, now)
  {
  }

  lemma StepExplains(s: Store, e: Event, t: Store, key: Key, retention: nat)
    requires Happens(s, retention, e, t) && e.key == key
    ensures Explains(e, t, key, retention, e.now)
  {
  }

  /** At every point of a history the store holds for each key exactly what the
      key's last call left there, or has forgotten a reply past its retention. */
  lemma {:induction false} HistoryExplained(
    stores: seq<Store>, log: seq<Event>, retention: nat, start: Time, n: nat, key: Key)
    requires History(stores, log, retention, start) && n <= |log|
    ensures Explained(log, n, stores[n], key, retention, Clock(log, n, start))
    decreases n
  {
    if n > 0 {
      HistoryExplained(stores, log, retention, start, n - 1, key);
      var e, s, t := log[n - 1], stores[n - 1], stores[n];
      assert Happens(s, retention, e, t);
      if e.key == key {
        StepExplains(s, e, t, key, retention);
      } else {
        var i := LastTouch(log, key, n - 1);
        assert LastTouch(log, key, n) == i;
        var before := Clock(log, n - 1, start);
        assert before <= e.now;
        if i >= 0 {
          HousekeptExplains(log[i], s, key, retention, before, e.now);
        }
      }
    }
  }

  /** At most once: a request is executed again only if it was never seen, its
      last run was cleared, or its reply was last used longer ago than the
      retention period. While one run is unfinished, a duplicate is never new. */
  lemma NewOnlyIf(stores: seq<Store>, log: seq<Event>, retention: nat, start: Time, n: nat)
    requires History(stores, log, retention, start) && n < |log|
    requires log[n].Checked? && log[n].status == New
    ensures var i := LastTouch(log, log[n].key, n);
      || i < 0
      || log[i].Cleared?
      || ((log[i].Recorded? || log[i].status.Replay?) && log[n].now - log[i].now > retention)
  {
    var key := log[n].key;
    HistoryExplained(stores, log, retention, start, n, key);
    assert Happens(stores[n], retention, log[n], stores[n + 1]);
    var i := LastTouch(log, key, n);
    var before := Clock(log, n, start);
    if i >= 0 {
      assert before <= log[n].now;
      HousekeptExplains(log[i], stores[n], key, retention, before, log[n].now);
    }
  }

  /** A duplicate is dropped exactly while its run is unfinished, and a replay
      repeats the bytes that were last recorded or replayed for its key. */
  lemma DuplicateAnswer(stores: seq<Store>, log: seq<Event>, retention: nat, start: Time, n: nat)
    requires History(stores, log, retention, start) && n < |log| && log[n].Checked? && log[n].status != New
    ensures var i := LastTouch(log, log[n].key, n);
      && i >= 0
      && (log[n].status == Busy <==> log[i].Checked? && !log[i].status.Replay?)
      && (log[n].status.Replay? ==>
        || (log[i].Recorded? && log[n].status.response == log[i].response)
        || (log[i].Checked? && log[n].status == log[i].status))
  {
    var key := log[n].key;
    HistoryExplained(stores, log, retention, start, n, key);
    assert Happens(stores[n], retention, log[n], stores[n + 1]);
    var i := LastTouch(log, key, n);
    var before := Clock(log, n, start);
    if i >= 0 {
      assert before <= log[n].now;
      HousekeptExplains(log[i], stores[n], key, retention, before, log[n].now);
    }
  }

  /** The last reply recorded for `key` among the first `n` calls, or -1. */
  function LastRecord(log: seq<Event>, key: Key, n: nat): (i: int)
    requires n <= |log|
    ensures -1 <= i < n
    ensures i >= 0 ==> log[i].Recorded? && log[i].key == key
    ensures forall j | i < j < n :: !(log[j].Recorded? && log[j].key == key)
  {
    if n == 0 then -1
    else if log[n - 1].Recorded? && log[n - 1].key == key then n - 1
    else LastRecord(log, key, n - 1)
  }

  /** Every replay, however often repeated, gives exactly the bytes recorded for its key last. */
  lemma {:induction false} ReplayIsRecorded(
    stores: seq<Store>, log: seq<Event>, retention: nat, start: Time, n: nat)
    requires History(stores, log, retention, start) && n < |log|
    requires log[n].Checked? && log[n].status.Replay?
    ensures var r := LastRecord(log, log[n].key, n); r >= 0 && log[n].status.response == log[r].response
    decreases n
  {
    DuplicateAnswer(stores, log, retention, start, n);
    var key := log[n].key;
    var i := LastTouch(log, key, n);
    SameRecord(log, key, i, n);
    if log[i].Checked? {
      ReplayIsRecorded(stores, log, retention, start, i);
    }
  }

  lemma {:induction false} SameRecord(log: seq<Event>, key: Key, i: nat, n: nat)
    requires i < n <= |log| && log[i].key == key && forall j | i < j < n :: log[j].key != key
    ensures LastRecord(log, key, n) == if log[i].Recorded? then i else LastRecord(log, key, i)
    decreases n
  {
    if n > i + 1 {
      SameRecord(log, key, i, n - 1);
    }
  }

  /** Between two executions of one request there is a clear or a silence longer than the retention period. */
  lemma ExecutedTwice(stores: seq<Store>, log: seq<Event>, retention: nat, start: Time, i: nat, j: nat)
    requires History(stores, log, retention, start) && i < j < |log|
    requires log[i].Checked? && log[i].status == New && log[j].Checked? && log[j].status == New
    requires log[i].key == log[j].key
    ensures exists k ::
      i < k < j && log[k].key == log[i].key && (log[k].Cleared? || log[j].now - log[k].now > retention)
  {
    NewOnlyIf(stores, log, retention, start, j);
    var k := LastTouch(log, log[j].key, j);
    assert k >= i;
    assert k != i;
  }

  // ---- retention ---------------------------------------------------------

  /** No completed entry is older than one retention period before the last sweep, or newer than the clock. */
  predicate Aged(s: Store, retention: nat, now: Time) {
    && s.last <= now
    && forall k | k in s.txs && s.txs[k].Completed? :: s.last - retention <= s.txs[k].time <= now
  }

  lemma HappensAged(s: Store, retention: nat, e: Event, t: Store, before: Time)
    requires Aged(s, retention, before) && Happens(s, retention, e, t) && before <= e.now
    ensures Aged(t, retention, e.now)
  {
  }

  lemma {:induction false} HistoryAged(stores: seq<Store>, log: seq<Event>, retention: nat, start: Time, n: nat)
    requires History(stores, log, retention, start) && n <= |log|
    ensures Aged(stores[n], retention, Clock(log, n, start))
    decreases n
  {
    if n > 0 {
      HistoryAged(stores, log, retention, start, n - 1);
      assert Happens(stores[n - 1], retention, log[n - 1], stores[n]);
      assert Clock(log, n - 1, start) <= log[n - 1].now;
      HappensAged(stores[n - 1], retention, log[n - 1], stores[n], Clock(log, n - 1, start));
    }
  }

  /** The interval in nanoseconds: a quarter of the retention period, but at least a second;
      a retention period below one second is its own interval. */
  function IntervalNanoseconds(retention: nat): nat {
    if retention < 1_000_000_000 then retention
    else if retention < 4_000_000_000 then 1_000_000_000
    else retention / 4
  }

  lemma IntervalIs(retention: nat)
    ensures Interval(retention) == IntervalNanoseconds(retention)
  {
  }

  /** After any check no completed entry is older than the retention period plus one sweep interval. */
  lemma RetentionBound(stores: seq<Store>, log: seq<Event>, retention: nat, start: Time, n: nat, k: Key)
    requires History(stores, log, retention, start) && n < |log| && log[n].Checked?
    requires k in stores[n + 1].txs && stores[n + 1].txs[k].Completed?
    ensures stores[n + 1].txs[k].time >= log[n].now - (retention + IntervalNanoseconds(retention))
    ensures IntervalNanoseconds(retention) <= retention
  {
    HistoryAged(stores, log, retention, start, n);
    assert Happens(stores[n], retention, log[n], stores[n + 1]);
    IntervalIs(retention);
    IntervalWithinRetention(retention);
  }

  /** A check drops another request's entry if and only if it completed longer ago than the
      retention period, and an interval has passed since the last sweep or the clock went
      backwards; otherwise the entry stays as it is. */
  lemma DroppedIff(s: Store, retention: nat, key: Key, now: Time, k: Key)
    requires k in s.txs && k != key
    ensures var after := CheckStore(s, retention, key, now).0.txs;
      && (k !in after <==>
        && s.txs[k].Completed? && s.txs[k].time < now - retention
        && (now < s.last || now - s.last >= IntervalNanoseconds(retention)))
      && (k in after ==> after[k] == s.txs[k])
  {
    IntervalIs(retention);
  }
}
