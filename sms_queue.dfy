/** The outgoing SMS queue: enqueue, the pending selection, the drain loop
    that sends, logs and marks each fetched message, the statistics, the
    cleanup of old processed rows and the cancelling of pending ones. */
module SmsQueueService {
  import opened Common
  import opened Schema
  import opened TwilioService

  const DefaultBatchSize: nat := 10
  const DefaultCleanupDays: int := 30

  // ---------------------------------------------------------------------
  // queueSMS

  /** The row `queueSMS` inserts: unprocessed, with the given priority and
      send time. */
  function NewEntry(id: Id, participant: Id, phone: string, kind: string, body: string, priority: int, scheduledFor: Time): (e: QueueEntry)
    ensures !e.processed && e.processedAt.None?
    ensures e.id == id && e.participant == participant && e.priority == priority && e.scheduledFor == scheduledFor
    ensures e.phoneNumber == phone && e.messageType == kind && e.body == body
  {
    QueueEntry(id, participant, phone, kind, body, priority, scheduledFor, false, None)
  }

  /** `queueSMS`: appends exactly one entry and returns its id. The source's
      defaults (priority 5, send now) are its callers' to pass. */
  method QueueSms(db: Database, participant: Id, phone: string, kind: string, body: string, priority: int, scheduledFor: Time)
    returns (queueId: Id)
    requires db.Valid()
    modifies db`queue, db`nextQueueId
    ensures db.Valid()
    ensures queueId == old(db.nextQueueId) && db.nextQueueId == queueId + 1
    ensures db.queue == old(db.queue) + [NewEntry(queueId, participant, phone, kind, body, priority, scheduledFor)]
  {
    queueId := db.nextQueueId;
    var e := NewEntry(queueId, participant, phone, kind, body, priority, scheduledFor);
    DistinctAppend(db.queue, e, QueueKey, db.nextQueueId);
    db.queue := db.queue + [e];
    db.nextQueueId := db.nextQueueId + 1;
  }

  // ---------------------------------------------------------------------
  // getPendingSMS

  function IsDue(now: Time): QueueEntry -> bool
  {
    (e: QueueEntry) => !e.processed && e.scheduledFor <= now
  }

  /** The rows the pending query's WHERE admits. */
  function Due(queue: seq<QueueEntry>, now: Time): seq<QueueEntry>
  {
    Filter(queue, IsDue(now))
  }

  function SendOrder(e: QueueEntry): (int, int)
  {
    (e.priority, e.scheduledFor)
  }

  /** `getPendingSMS(limit)` */
  function PendingSms(queue: seq<QueueEntry>, now: Time, limit: nat): (r: seq<QueueEntry>)
    ensures |r| == Min(limit, |Due(queue, now)|)
    ensures forall e :: e in r ==> e in queue && !e.processed && e.scheduledFor <= now
    ensures SortedBy(r, SendOrder)
  {
    var sorted := SortBy(Due(queue, now), SendOrder);
    var r := Take(sorted, limit);
    forall e | e in r ensures e in queue && !e.processed && e.scheduledFor <= now {
      assert e in sorted;
      assert e in multiset(Due(queue, now));
    }
    r
  }

  /** The selection takes the first due messages in send order: every due
      message it leaves out sorts after every message it takes. */
  lemma PendingAreFirst(queue: seq<QueueEntry>, now: Time, limit: nat)
    ensures exists rest: seq<QueueEntry> ::
      && multiset(PendingSms(queue, now, limit)) + multiset(rest) == multiset(Due(queue, now))
      && forall x, y :: x in PendingSms(queue, now, limit) && y in rest ==> LexLe(SendOrder(x), SendOrder(y))
  {
    var sorted := SortBy(Due(queue, now), SendOrder);
    var k := Min(limit, |sorted|);
    SortedSplit(sorted, SendOrder, k);
    assert sorted == sorted[..k] + sorted[k..];
    assert PendingSms(queue, now, limit) == sorted[..k];
  }

  // ---------------------------------------------------------------------
  // markAsProcessed

  /** The UPDATE of `markAsProcessed`: rows with that id become processed at
      `now`. */
  function MarkProcessed(queue: seq<QueueEntry>, id: int, now: Time): (r: seq<QueueEntry>)
    ensures |r| == |queue|
    ensures forall i :: 0 <= i < |queue| ==>
      (r[i] == if queue[i].id == id then queue[i].(processed := true, processedAt := Some(now)) else queue[i])
  {
    seq(|queue|, i requires 0 <= i < |queue| =>
      if queue[i].id == id then queue[i].(processed := true, processedAt := Some(now)) else queue[i])
  }

  lemma MarkKeepsKeys(queue: seq<QueueEntry>, id: int, now: Time, bound: int)
    requires DistinctBy(queue, QueueKey) && AllBelow(queue, QueueKey, bound)
    ensures DistinctBy(MarkProcessed(queue, id, now), QueueKey)
    ensures AllBelow(MarkProcessed(queue, id, now), QueueKey, bound)
  {
    var r := MarkProcessed(queue, id, now);
    assert forall i :: 0 <= i < |r| ==> QueueKey(r[i]) == QueueKey(queue[i]);
  }

  method MarkAsProcessed(db: Database, id: Id, now: Time) returns (ok: bool)
    requires db.Valid()
    modifies db`queue
    ensures db.Valid()
    ensures db.queue == MarkProcessed(old(db.queue), id, now)
    ensures ok
  {
    MarkKeepsKeys(db.queue, id, now, db.nextQueueId);
    db.queue := MarkProcessed(db.queue, id, now);
    ok := true;
  }

  // ---------------------------------------------------------------------
  // processQueue

  /** The tables and the counters after the first messages of a batch. */
  datatype Drain = Drain(queue: seq<QueueEntry>, logs: seq<LogEntry>, success: nat, failed: nat)

  /** The local hour at each send and the carrier's answer to each request,
      for the messages of a batch in turn. */
  datatype Gateway = Gateway(hourAt: nat -> int, outcomeAt: nat -> GatewayOutcome)

  function ResponseAt(env: Env, batch: seq<QueueEntry>, i: nat, gw: Gateway, format: PhoneFormatter): TwilioResponse
    requires i < |batch|
  {
    SendSms(env, gw.hourAt(i), batch[i].phoneNumber, format, gw.outcomeAt(i))
  }

  /** Send, log and mark the first `n` messages of the batch. */
  function DrainPrefix(queue: seq<QueueEntry>, logs: seq<LogEntry>, batch: seq<QueueEntry>, n: nat,
                       env: Env, gw: Gateway, format: PhoneFormatter, now: Time): (d: Drain)
    requires n <= |batch|
    ensures d.success + d.failed == n
    ensures |d.logs| == |logs| + n && d.logs[..|logs|] == logs
    ensures |d.queue| == |queue|
    decreases n
  {
    if n == 0 then Drain(queue, logs, 0, 0)
    else DrainOne(DrainPrefix(queue, logs, batch, n - 1, env, gw, format, now), batch[n - 1],
                  ResponseAt(env, batch, n - 1, gw, format), now)
  }

  /** One turn of the loop: log the send of `m`, mark `m`, count the outcome. */
  function DrainOne(d: Drain, m: QueueEntry, r: TwilioResponse, now: Time): (d': Drain)
    ensures d'.success + d'.failed == d.success + d.failed + 1
    ensures d'.logs == d.logs + [LogRow(m.participant, m.phoneNumber, m.messageType, m.body, r)]
    ensures |d'.queue| == |d.queue|
  {
    Drain(MarkProcessed(d.queue, m.id, now),
      d.logs + [LogRow(m.participant, m.phoneNumber, m.messageType, m.body, r)],
      d.success + (if r.success then 1 else 0),
      d.failed + (if r.success then 0 else 1))
  }

  datatype ProcessResult =
    | OutsideHours
    | NoPending
    | Processed(processed: nat, success: nat, failed: nat)

  /** `processQueue(maxMessages)` on the queue and the log. The hour checked
      first is `hour`; each send reads the clock again through `gw`. */
  function ProcessQueueOf(queue: seq<QueueEntry>, logs: seq<LogEntry>, env: Env, hour: int, gw: Gateway,
                          format: PhoneFormatter, now: Time, maxMessages: nat): (ProcessResult, Drain)
  {
    if !IsWithinAllowedHours(hour) then (OutsideHours, Drain(queue, logs, 0, 0))
    else
      var batch := PendingSms(queue, now, maxMessages);
      if batch == [] then (NoPending, Drain(queue, logs, 0, 0))
      else
        var d := DrainPrefix(queue, logs, batch, |batch|, env, gw, format, now);
        (Processed(d.success + d.failed, d.success, d.failed), d)
  }

  /** `processQueue`. */
  method ProcessQueue(db: Database, env: Env, hour: int, gw: Gateway, format: PhoneFormatter, now: Time, maxMessages: nat)
    returns (r: ProcessResult)
    requires db.Valid()
    modifies db`queue, db`logs
    ensures db.Valid()
    ensures var (result, d) := ProcessQueueOf(old(db.queue), old(db.logs), env, hour, gw, format, now, maxMessages);
      r == result && db.queue == d.queue && db.logs == d.logs
  {
    if !IsWithinAllowedHours(hour) {
      return OutsideHours;
    }
    var batch := PendingSms(db.queue, now, maxMessages);
    if batch == [] {
      return NoPending;
    }
    var success, failed := DrainBatch(db, batch, env, gw, format, now);
    r := Processed(success + failed, success, failed);
  }

  /** The loop of `processQueue` over a fetched batch. */
  method DrainBatch(db: Database, batch: seq<QueueEntry>, env: Env, gw: Gateway, format: PhoneFormatter, now: Time)
    returns (success: nat, failed: nat)
    requires db.Valid()
    modifies db`queue, db`logs
    ensures db.Valid()
    ensures Drain(db.queue, db.logs, success, failed) == DrainPrefix(old(db.queue), old(db.logs), batch, |batch|, env, gw, format, now)
  {
    ghost var q0, l0 := db.queue, db.logs;
    success, failed := 0, 0;
    var i := 0;
    while i < |batch|
      invariant 0 <= i <= |batch|
      invariant db.Valid()
      invariant Drain(db.queue, db.logs, success, failed) == DrainPrefix(q0, l0, batch, i, env, gw, format, now)
    {
      success, failed := DrainNext(db, q0, l0, batch, i, env, gw, format, now, success, failed);
      i := i + 1;
    }
  }

  /** The body of the loop for the `i`-th message. */
  method DrainNext(db: Database, ghost q0: seq<QueueEntry>, ghost l0: seq<LogEntry>, batch: seq<QueueEntry>, i: nat,
                   env: Env, gw: Gateway, format: PhoneFormatter, now: Time, success: nat, failed: nat)
    returns (success': nat, failed': nat)
    requires i < |batch| && db.Valid()
    requires Drain(db.queue, db.logs, success, failed) == DrainPrefix(q0, l0, batch, i, env, gw, format, now)
    modifies db`queue, db`logs
    ensures db.Valid()
    ensures Drain(db.queue, db.logs, success', failed') == DrainPrefix(q0, l0, batch, i + 1, env, gw, format, now)
  {
    var m := batch[i];
    var response := ResponseAt(env, batch, i, gw, format);
    ghost var d := Drain(db.queue, db.logs, success, failed);
    SendStep(db, m, response, now);
    if response.success {
      success', failed' := success + 1, failed;
    } else {
      success', failed' := success, failed + 1;
    }
    assert Drain(db.queue, db.logs, success', failed') == DrainOne(d, m, response, now);
  }

  /** One turn of the loop on the tables: log the send, then mark the
      message processed. */
  method SendStep(db: Database, m: QueueEntry, response: TwilioResponse, now: Time)
    requires db.Valid()
    modifies db`queue, db`logs
    ensures db.Valid()
    ensures db.queue == MarkProcessed(old(db.queue), m.id, now)
    ensures db.logs == old(db.logs) + [LogRow(m.participant, m.phoneNumber, m.messageType, m.body, response)]
  {
    var logged := LogSms(db, m.participant, m.phoneNumber, m.messageType, m.body, response);
    var marked := MarkAsProcessed(db, m.id, now);
  }

  /** The `i`-th message of the batch adds the `i`-th new log row, for its
      participant, number, type and text, with the send's outcome. */
  lemma {:induction false} DrainLogAt(queue: seq<QueueEntry>, logs: seq<LogEntry>, batch: seq<QueueEntry>, n: nat, i: nat,
                                      env: Env, gw: Gateway, format: PhoneFormatter, now: Time)
    requires i < n <= |batch|
    ensures DrainPrefix(queue, logs, batch, n, env, gw, format, now).logs[|logs| + i]
      == LogRow(batch[i].participant, batch[i].phoneNumber, batch[i].messageType, batch[i].body,
                ResponseAt(env, batch, i, gw, format))
    decreases n
  {
    if i < n - 1 {
      DrainLogAt(queue, logs, batch, n - 1, i, env, gw, format, now);
      var d' := DrainPrefix(queue, logs, batch, n - 1, env, gw, format, now);
      var d := DrainPrefix(queue, logs, batch, n, env, gw, format, now);
      assert d.logs[|logs| + i] == d'.logs[|logs| + i];
    }
  }

  /** Each message of the batch adds exactly one log row, in batch order. */
  lemma DrainLogsEachMessage(queue: seq<QueueEntry>, logs: seq<LogEntry>, batch: seq<QueueEntry>, n: nat,
                             env: Env, gw: Gateway, format: PhoneFormatter, now: Time)
    requires n <= |batch|
    ensures var d := DrainPrefix(queue, logs, batch, n, env, gw, format, now);
      forall i :: 0 <= i < n ==>
        d.logs[|logs| + i] == LogRow(batch[i].participant, batch[i].phoneNumber, batch[i].messageType, batch[i].body,
                                     ResponseAt(env, batch, i, gw, format))
  {
    forall i | 0 <= i < n
      ensures DrainPrefix(queue, logs, batch, n, env, gw, format, now).logs[|logs| + i]
        == LogRow(batch[i].participant, batch[i].phoneNumber, batch[i].messageType, batch[i].body,
                  ResponseAt(env, batch, i, gw, format))
    {
      DrainLogAt(queue, logs, batch, n, i, env, gw, format, now);
    }
  }

  predicate InBatch(batch: seq<QueueEntry>, id: int)
  {
    exists m :: m in batch && m.id == id
  }

  /** After a drain every row whose id was in the batch is processed at
      `now`; every other row is as it was. */
  lemma {:induction false} DrainMarksBatch(queue: seq<QueueEntry>, logs: seq<LogEntry>, batch: seq<QueueEntry>, n: nat,
                                           env: Env, gw: Gateway, format: PhoneFormatter, now: Time)
    requires n <= |batch|
    ensures var d := DrainPrefix(queue, logs, batch, n, env, gw, format, now);
      forall k :: 0 <= k < |queue| ==>
        (d.queue[k] == if InBatch(batch[..n], queue[k].id)
           then queue[k].(processed := true, processedAt := Some(now)) else queue[k])
    decreases n
  {
    if n > 0 {
      DrainMarksBatch(queue, logs, batch, n - 1, env, gw, format, now);
      var d' := DrainPrefix(queue, logs, batch, n - 1, env, gw, format, now);
      var d := DrainPrefix(queue, logs, batch, n, env, gw, format, now);
      forall k | 0 <= k < |queue|
        ensures d.queue[k] == if InBatch(batch[..n], queue[k].id)
          then queue[k].(processed := true, processedAt := Some(now)) else queue[k]
      {
        InBatchStep(batch, n, queue[k].id);
      }
    }
  }

  lemma InBatchStep(batch: seq<QueueEntry>, n: nat, id: int)
    requires 0 < n <= |batch|
    ensures InBatch(batch[..n], id) <==> InBatch(batch[..n - 1], id) || batch[n - 1].id == id
  {
    assert batch[..n] == batch[..n - 1] + [batch[n - 1]];
    if InBatch(batch[..n], id) {
      var m :| m in batch[..n] && m.id == id;
      if m != batch[n - 1] {
        assert m in batch[..n - 1];
      }
    }
    if InBatch(batch[..n - 1], id) {
      var m :| m in batch[..n - 1] && m.id == id;
      assert m in batch[..n];
    }
    if batch[n - 1].id == id {
      assert batch[n - 1] in batch[..n];
    }
  }

  /** The drain loop's promises: outside the allowed hours nothing happens;
      otherwise `processed` = `success` + `failed` = the batch size, at most
      `maxMessages`, and the log grows by exactly that many rows. */
  lemma ProcessQueueCounts(queue: seq<QueueEntry>, logs: seq<LogEntry>, env: Env, hour: int, gw: Gateway,
                           format: PhoneFormatter, now: Time, maxMessages: nat)
    ensures var (r, d) := ProcessQueueOf(queue, logs, env, hour, gw, format, now, maxMessages);
      && (!IsWithinAllowedHours(hour) <==> r == OutsideHours)
      && (r == OutsideHours || r == NoPending ==> d.queue == queue && d.logs == logs)
      && (r == NoPending <==> IsWithinAllowedHours(hour) && (maxMessages == 0 || Due(queue, now) == []))
      && (r.Processed? ==>
            && r.processed == r.success + r.failed == Min(maxMessages, |Due(queue, now)|)
            && 0 < r.processed <= maxMessages
            && |d.logs| == |logs| + r.processed)
  {
  }

  /** At-most-once delivery: a message the drain fetched is no longer
      pending afterwards, whatever its send did, so no later run sends it
      again. */
  lemma NoMessageSentTwice(queue: seq<QueueEntry>, logs: seq<LogEntry>, env: Env, hour: int, gw: Gateway,
                           format: PhoneFormatter, now: Time, maxMessages: nat, later: Time, limit: nat)
    ensures var batch := PendingSms(queue, now, maxMessages);
      var d := ProcessQueueOf(queue, logs, env, hour, gw, format, now, maxMessages).1;
      IsWithinAllowedHours(hour) ==>
        forall e :: e in PendingSms(d.queue, later, limit) ==> !InBatch(batch, e.id)
  {
    var batch := PendingSms(queue, now, maxMessages);
    var d := ProcessQueueOf(queue, logs, env, hour, gw, format, now, maxMessages).1;
    if IsWithinAllowedHours(hour) && batch != [] {
      DrainMarksBatch(queue, logs, batch, |batch|, env, gw, format, now);
      assert batch[..|batch|] == batch;
      BatchRowsProcessed(queue, d.queue, batch, now);
    }
  }

  /** A queue whose batch rows were marked holds no unprocessed batch row. */
  lemma BatchRowsProcessed(queue: seq<QueueEntry>, marked: seq<QueueEntry>, batch: seq<QueueEntry>, now: Time)
    requires |marked| == |queue|
    requires forall k :: 0 <= k < |queue| ==>
      (marked[k] == if InBatch(batch, queue[k].id)
         then queue[k].(processed := true, processedAt := Some(now)) else queue[k])
    ensures forall e :: e in marked && !e.processed ==> !InBatch(batch, e.id)
  {
    forall e | e in marked && !e.processed ensures !InBatch(batch, e.id) {
      var k :| 0 <= k < |marked| && marked[k] == e;
      assert marked[k].id == queue[k].id;
    }
  }

  // ---------------------------------------------------------------------
  // getQueueStats

  /** The aggregate row. SUM over an empty table is NULL, so `pending` and
      `processed` are missing then. */
  datatype QueueStats = QueueStats(total: nat, pending: Option<nat>, processed: Option<nat>, nextScheduled: Option<Time>)

  function IsPending(e: QueueEntry): bool { !e.processed }

  /** `MIN(scheduled_for)` over a set of rows; NULL when there are none. */
  function MinScheduled(s: seq<QueueEntry>): (r: Option<Time>)
    ensures r.None? <==> s == []
    ensures r.Some? ==> (exists e :: e in s && e.scheduledFor == r.value) && forall e :: e in s ==> r.value <= e.scheduledFor
    decreases |s|
  {
    if s == [] then None
    else
      var rest := MinScheduled(s[1..]);
      if rest.None? || s[0].scheduledFor <= rest.value then Some(s[0].scheduledFor)
      else
        assert forall e :: e in s ==> e == s[0] || e in s[1..];
        rest
  }

  function GetQueueStats(queue: seq<QueueEntry>): QueueStats
  {
    QueueStats(|queue|,
      if queue == [] then None else Some(|Filter(queue, IsPending)|),
      if queue == [] then None else Some(|Filter(queue, Not(IsPending))|),
      MinScheduled(Filter(queue, IsPending)))
  }

  /** pending + processed = total on a non-empty queue, and the next send
      time is the earliest among the pending messages. */
  lemma QueueStatsMeaning(queue: seq<QueueEntry>)
    ensures var s := GetQueueStats(queue);
      && s.total == |queue|
      && (queue == [] <==> s.pending.None?)
      && (queue == [] <==> s.processed.None?)
      && (queue != [] ==> s.pending.value + s.processed.value == s.total)
      && (s.nextScheduled.None? <==> forall e :: e in queue ==> e.processed)
      && (s.nextScheduled.Some? ==>
            && (exists e :: e in queue && !e.processed && e.scheduledFor == s.nextScheduled.value)
            && forall e :: e in queue && !e.processed ==> s.nextScheduled.value <= e.scheduledFor)
  {
    FilterPartition(queue, IsPending);
    var p := Filter(queue, IsPending);
    assert p != [] ==> p[0] in p;
    if !forall e :: e in queue ==> e.processed {
      var e :| e in queue && !e.processed;
      assert e in p;
    }
  }

  // ---------------------------------------------------------------------
  // cleanupProcessed

  /** Processed before `now - daysOld` days; a NULL `processed_at` never
      compares. */
  function IsExpired(now: Time, daysOld: int): QueueEntry -> bool
  {
    (e: QueueEntry) => e.processed && e.processedAt.Some? && e.processedAt.value < now - daysOld * SecondsPerDay
  }

  /** The DELETE of `cleanupProcessed`, and the affected-row count. */
  function Cleanup(queue: seq<QueueEntry>, now: Time, daysOld: int): (seq<QueueEntry>, nat)
  {
    var kept := Filter(queue, Not(IsExpired(now, daysOld)));
    (kept, |queue| - |kept|)
  }

  /** Cleanup removes exactly the old processed rows, never a pending one,
      and reports how many it removed. */
  lemma CleanupMeaning(queue: seq<QueueEntry>, now: Time, daysOld: int)
    ensures var (kept, deleted) := Cleanup(queue, now, daysOld);
      && (forall e :: e in kept <==> e in queue && !IsExpired(now, daysOld)(e))
      && (forall e :: e in queue && !e.processed ==> e in kept)
      && deleted == |Filter(queue, IsExpired(now, daysOld))|
      && |kept| + deleted == |queue|
  {
    FilterPartition(queue, IsExpired(now, daysOld));
  }

  method CleanupProcessed(db: Database, now: Time, daysOld: int) returns (deleted: nat)
    requires db.Valid()
    modifies db`queue
    ensures db.Valid()
    ensures (db.queue, deleted) == Cleanup(old(db.queue), now, daysOld)
  {
    FilterKeepsDistinct(db.queue, Not(IsExpired(now, daysOld)), QueueKey);
    FilterKeepsBelow(db.queue, Not(IsExpired(now, daysOld)), QueueKey, db.nextQueueId);
    var kept := Filter(db.queue, Not(IsExpired(now, daysOld)));
    deleted := |db.queue| - |kept|;
    db.queue := kept;
  }

  // ---------------------------------------------------------------------
  // cancelPendingSMS

  /** A pending row of that participant, of the given type when a (non-empty)
      type is supplied. */
  function IsCancelled(participant: Id, kind: Option<string>): QueueEntry -> bool
  {
    (e: QueueEntry) => e.participant == participant && !e.processed
      && (kind.None? || kind.value == "" || e.messageType == kind.value)
  }

  function Cancel(queue: seq<QueueEntry>, participant: Id, kind: Option<string>): (seq<QueueEntry>, nat)
  {
    var kept := Filter(queue, Not(IsCancelled(participant, kind)));
    (kept, |queue| - |kept|)
  }

  /** Cancelling removes only that participant's pending rows (of that type
      when one is given) and keeps every processed row and every other
      participant's row. */
  lemma CancelMeaning(queue: seq<QueueEntry>, participant: Id, kind: Option<string>)
    ensures var (kept, cancelled) := Cancel(queue, participant, kind);
      && (forall e :: e in queue && (e.participant != participant || e.processed) ==> e in kept)
      && (forall e :: e in queue && kind.Some? && kind.value != "" && e.messageType != kind.value ==> e in kept)
      && (forall e :: e in kept ==> e in queue && !IsCancelled(participant, kind)(e))
      && cancelled == |Filter(queue, IsCancelled(participant, kind))|
  {
    FilterPartition(queue, IsCancelled(participant, kind));
  }

  method CancelPendingSms(db: Database, participant: Id, kind: Option<string>) returns (cancelled: nat)
    requires db.Valid()
    modifies db`queue
    ensures db.Valid()
    ensures (db.queue, cancelled) == Cancel(old(db.queue), participant, kind)
  {
    FilterKeepsDistinct(db.queue, Not(IsCancelled(participant, kind)), QueueKey);
    FilterKeepsBelow(db.queue, Not(IsCancelled(participant, kind)), QueueKey, db.nextQueueId);
    var kept := Filter(db.queue, Not(IsCancelled(participant, kind)));
    cancelled := |db.queue| - |kept|;
    db.queue := kept;
  }
}
