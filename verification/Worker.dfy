/** The polling worker: what one round does, and what every sequence of rounds keeps. */
module Worker {
  import opened Outbox

  /** How a dispatch attempt ends: it returned and was recorded, it raised, or it returned
      (having marked the row itself) but recording it here raised. */
  datatype Outcome = Delivered | Raised | Unrecorded

  /** An attempt's outcome and the database clock when its result is written. */
  datatype Attempt = Attempt(outcome: Outcome, clock: real)

  function Pow2(n: nat): nat {
    if n == 0 then 1 else 2 * Pow2(n - 1)
  }

  /** Back-off starts at one second and doubles with every failure. */
  lemma Pow2Doubles(n: nat)
    ensures Pow2(0) == 1 && Pow2(n + 1) == 2 * Pow2(n)
    ensures Pow2(1) == 2 && Pow2(2) == 4 && Pow2(3) == 8
  {
  }

  /** What handling one record does to its row; the retry decision uses the count that was
      read when the batch was listed. */
  function Handled(r: Row, seen: Row, a: Attempt): Row {
    if seen.topic != TOPIC_MESSAGE_NEW || a.outcome == Delivered then SentRow(r)
    else
      var r' := if a.outcome == Unrecorded then SentRow(r) else r;
      if seen.retry + 1 >= MAX_RETRY then DeadRow(r')
      else RetryRow(r', a.clock, Pow2(seen.retry))
  }

  /** The table after the first `n` records of a batch. */
  function AfterBatch(rows: Rows, batch: seq<nat>, env: seq<Attempt>, n: nat): Rows
    requires n <= |batch| <= |env|
    requires forall i :: 0 <= i < |batch| ==> batch[i] in rows
  {
    if n == 0 then rows
    else
      var before, id := AfterBatch(rows, batch, env, n - 1), batch[n - 1];
      if id in before then before[id := Handled(before[id], rows[id], env[n - 1])] else before
  }

  function Count(rows: Rows, batch: seq<nat>, env: seq<Attempt>, n: nat): nat
    requires n <= |batch| <= |env|
    requires forall i :: 0 <= i < |batch| ==> batch[i] in rows
  {
    if n == 0 then 0
    else
      Count(rows, batch, env, n - 1) +
      if rows[batch[n - 1]].topic == TOPIC_MESSAGE_NEW && env[n - 1].outcome == Delivered then 1 else 0
  }

  /** The records of a message whose dispatch returned and was recorded. */
  function DeliveredIn(rows: Rows, batch: seq<nat>, env: seq<Attempt>, n: nat): set<nat>
    requires n <= |batch| <= |env|
    requires forall i :: 0 <= i < |batch| ==> batch[i] in rows
  {
    set i | 0 <= i < n && env[i].outcome == Delivered && rows[batch[i]].topic == "message.new"
  }

  lemma {:induction false} CountExact(rows: Rows, batch: seq<nat>, env: seq<Attempt>, n: nat)
    requires n <= |batch| <= |env|
    requires forall i :: 0 <= i < |batch| ==> batch[i] in rows
    ensures Count(rows, batch, env, n) == |DeliveredIn(rows, batch, env, n)|
  {
    if n > 0 {
      CountExact(rows, batch, env, n - 1);
      var before, now := DeliveredIn(rows, batch, env, n - 1), DeliveredIn(rows, batch, env, n);
      assert now == before + if n - 1 in now then {n - 1} else {};
    }
  }

  class OutboxWorker {
    const table: OutboxTable

    constructor (table: OutboxTable)
      ensures this.table == table
    {
      this.table := table;
    }

    /** `process_once`; `env` supplies the dispatcher's outcome for every record of the batch. */
    method ProcessOnce(now: real, env: seq<Attempt>) returns (dispatched: nat, batch: seq<nat>)
      requires table.Valid() && |env| == BATCH
      modifies table
      ensures table.Valid() && IsBatch(old(table.rows), now, BATCH, batch)
      ensures table.rows == AfterBatch(old(table.rows), batch, env, |batch|)
      ensures dispatched == |set i | 0 <= i < |batch| && env[i].outcome == Delivered &&
                                     old(table.rows)[batch[i]].topic == "message.new"|
    {
      dispatched := 0;
      batch := table.ListPending(now, BATCH);
      var records := table.rows;
      for i := 0 to |batch|
        invariant table.Valid() && records == old(table.rows)
        invariant table.rows == AfterBatch(records, batch, env, i)
        invariant dispatched == Count(records, batch, env, i)
      {
        var id, record := batch[i], records[batch[i]];
        if record.topic != TOPIC_MESSAGE_NEW {
          table.SetSent(id);
          continue;
        }
        if env[i].outcome == Delivered {
          table.SetSent(id);
          dispatched := dispatched + 1;
        } else {
          if env[i].outcome == Unrecorded {
            table.SetSent(id);
          }
          if record.retry + 1 >= MAX_RETRY {
            table.SetDeadLetter(id);
          } else {
            table.SetRetry(id, env[i].clock, Pow2(record.retry));
          }
        }
      }
      CountExact(records, batch, env, |batch|);
    }

    method CleanupSent(now: real) returns (count: nat)
      requires table.Valid()
      modifies table
      ensures table.Valid() && table.rows == WithoutExpired(old(table.rows), now, CLEANUP_AGE_SECONDS)
      ensures table.rows == old(table.rows) - set id | id in old(table.rows) && old(table.rows)[id].status == Sent &&
                                                     old(table.rows)[id].created < now - 604800.0
      ensures count == |old(table.rows)| - |table.rows|
    {
      count := table.DeleteSentOlderThan(now, CLEANUP_AGE_SECONDS);
    }
  }
}
