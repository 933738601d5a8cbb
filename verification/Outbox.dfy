/** The outbox table: the states of one row and the statements that change them. */
module Outbox {

  const TOPIC_MESSAGE_NEW := "message.new"
  const MAX_RETRY: nat := 5
  const BATCH: nat := 100
  const CLEANUP_AGE_SECONDS: real := 604800.0

  datatype Status = Pending | Sent | Dead

  /** `next_retry_at`: NULL means the row was never tried and is due at once. */
  datatype Due = AtOnce | At(time: real)

  datatype Row = Row(topic: string, msg: nat, status: Status, retry: nat, next: Due, created: real)

  type Rows = map<nat, Row>

  // ----- one row under each statement

  function NewRow(topic: string, msg: nat, now: real): Row {
    Row(topic, msg, Pending, 0, AtOnce, now)
  }

  /** `mark_sent` has no guard on the old status. */
  function SentRow(r: Row): Row {
    r.(status := Sent, next := AtOnce)
  }

  /** `mark_retry` only touches a row that is still pending. */
  function RetryRow(r: Row, now: real, backoff: nat): Row {
    if r.status == Pending then r.(retry := r.retry + 1, next := At(now + backoff as real)) else r
  }

  /** `mark_dead_letter` has no guard on the old status. */
  function DeadRow(r: Row): Row {
    r.(status := Dead, retry := r.retry + 1, next := AtOnce)
  }

  predicate IsDue(r: Row, now: real) {
    r.status == Pending && (r.next == AtOnce || r.next.time <= now)
  }

  predicate Expired(r: Row, now: real, seconds: real) {
    r.status == Sent && r.created < now - seconds
  }

  // ----- the same on the table; a missing id changes nothing

  function MarkSent(rows: Rows, id: nat): Rows {
    if id in rows then rows[id := SentRow(rows[id])] else rows
  }

  function MarkRetry(rows: Rows, id: nat, now: real, backoff: nat): Rows {
    if id in rows then rows[id := RetryRow(rows[id], now, backoff)] else rows
  }

  function MarkDead(rows: Rows, id: nat): Rows {
    if id in rows then rows[id := DeadRow(rows[id])] else rows
  }

  function WithoutExpired(rows: Rows, now: real, seconds: real): Rows {
    map id | id in rows && !Expired(rows[id], now, seconds) :: rows[id]
  }

  /** The due rows in ascending order of id, cut off after `limit`: a due row is missing only
      when the batch is full of smaller ids. */
  ghost predicate IsBatch(rows: Rows, now: real, limit: nat, ids: seq<nat>) {
    |ids| <= limit &&
    (forall i :: 0 <= i < |ids| ==> ids[i] in rows && IsDue(rows[ids[i]], now)) &&
    (forall i, j :: 0 <= i < j < |ids| ==> ids[i] < ids[j]) &&
    (forall id :: id in rows && IsDue(rows[id], now) && id !in ids ==>
      |ids| == limit && forall i :: 0 <= i < |ids| ==> ids[i] < id)
  }

  lemma RemovedCount(rows: Rows, gone: set<nat>)
    requires gone <= rows.Keys
    ensures |rows - gone| == |rows| - |gone|
  {
    assert (rows - gone).Keys == rows.Keys - gone;
    assert |rows.Keys| == |rows| && |(rows - gone).Keys| == |rows - gone|;
  }

  /** What one poll may hand out, in numbers: at most 100 due rows in ascending order, none of
      them missing unless the batch is full of smaller ids. */
  lemma BatchExact(rows: Rows, now: real, ids: seq<nat>)
    requires IsBatch(rows, now, BATCH, ids)
    ensures |ids| <= 100 && forall i, j :: 0 <= i < j < |ids| ==> ids[i] < ids[j]
    ensures forall i :: 0 <= i < |ids| ==>
              ids[i] in rows && rows[ids[i]].status == Pending &&
              (rows[ids[i]].next == AtOnce || rows[ids[i]].next.time <= now)
    ensures forall id :: id in rows && id !in ids ==>
              rows[id].status != Pending || (rows[id].next != AtOnce && rows[id].next.time > now) ||
              (|ids| == 100 && forall i :: 0 <= i < |ids| ==> ids[i] < id)
  {
    forall id | id in rows && id !in ids && IsDue(rows[id], now)
      ensures |ids| == 100 && forall i :: 0 <= i < |ids| ==> ids[i] < id
    {
    }
  }

  class OutboxTable {
    var rows: Rows
    var nextId: nat

    ghost predicate Valid()
      reads this
    {
      forall id :: id in rows ==> id < nextId
    }

    constructor ()
      ensures Valid() && rows == map[]
    {
      rows := map[];
      nextId := 1;
    }

    method Create(topic: string, msg: nat, now: real) returns (id: nat)
      requires Valid()
      modifies this
      ensures Valid() && id !in old(rows) && rows == old(rows)[id := Row(topic, msg, Pending, 0, AtOnce, now)]
    {
      id := nextId;
      rows := rows[id := NewRow(topic, msg, now)];
      nextId := nextId + 1;
    }

    /** `list_pending`: ordered by id and limited. */
    method ListPending(now: real, limit: nat) returns (ids: seq<nat>)
      requires Valid()
      ensures IsBatch(rows, now, limit, ids)
    {
      ids := [];
      var id := 0;
      while id < nextId && |ids| < limit
        invariant id <= nextId && |ids| <= limit
        invariant forall i :: 0 <= i < |ids| ==> ids[i] < id && ids[i] in rows && IsDue(rows[ids[i]], now)
        invariant forall i, j :: 0 <= i < j < |ids| ==> ids[i] < ids[j]
        invariant forall k: nat :: k < id && k in rows && IsDue(rows[k], now) ==> k in ids
      {
        if id in rows && IsDue(rows[id], now) {
          ids := ids + [id];
        }
        id := id + 1;
      }
    }

    method SetSent(id: nat)
      requires Valid()
      modifies this`rows
      ensures Valid() && rows == MarkSent(old(rows), id)
      ensures id !in old(rows) ==> rows == old(rows)
      ensures id in old(rows) ==> rows == old(rows)[id := old(rows)[id].(status := Sent, next := AtOnce)]
    {
      if id in rows {
        rows := rows[id := rows[id].(status := Sent, next := AtOnce)];
      }
    }

    method SetRetry(id: nat, now: real, backoff: nat)
      requires Valid()
      modifies this`rows
      ensures Valid() && rows == MarkRetry(old(rows), id, now, backoff)
      ensures id !in old(rows) || old(rows)[id].status != Pending ==> rows == old(rows)
      ensures id in old(rows) && old(rows)[id].status == Pending ==>
                var r := old(rows)[id];
                rows == old(rows)[id := r.(retry := r.retry + 1, next := At(now + backoff as real))]
    {
      if id in rows && rows[id].status == Pending {
        var r := rows[id];
        rows := rows[id := r.(retry := r.retry + 1, next := At(now + backoff as real))];
      } else if id in rows {
        assert rows == rows[id := rows[id]];
      }
    }

    method SetDeadLetter(id: nat)
      requires Valid()
      modifies this`rows
      ensures Valid() && rows == MarkDead(old(rows), id)
      ensures id !in old(rows) ==> rows == old(rows)
      ensures id in old(rows) ==>
                var r := old(rows)[id];
                rows == old(rows)[id := r.(status := Dead, retry := r.retry + 1, next := AtOnce)]
    {
      if id in rows {
        var r := rows[id];
        rows := rows[id := r.(status := Dead, retry := r.retry + 1, next := AtOnce)];
      }
    }

    /** `delete_sent_older_than`; the result is the number of deleted rows. */
    method DeleteSentOlderThan(now: real, seconds: real) returns (count: nat)
      requires Valid()
      modifies this`rows
      ensures Valid() && rows == WithoutExpired(old(rows), now, seconds)
      ensures rows == old(rows) - set id | id in old(rows) && old(rows)[id].status == Sent &&
                                         old(rows)[id].created < now - seconds
      ensures count == |old(rows)| - |rows|
    {
      var gone := set id | id in rows && Expired(rows[id], now, seconds);
      RemovedCount(rows, gone);
      rows := rows - gone;
      count := |gone|;
      assert gone == set id | id in old(rows) && old(rows)[id].status == Sent && old(rows)[id].created < now - seconds;
    }
  }
}
