/** Every run of one polling worker, with sends, inline dispatches and cleanups in between:
    retry counts, back-off spacing, dead letters and the total amount of work. */
module WorkerRuns {
  import opened Outbox
  import opened Worker

  /** One attempt: the time of its polling round, its outcome and when the result was written. */
  datatype Try = Try(polled: real, outcome: Outcome, written: real)

  /** The table, the attempts the worker made for every row ever created and the rows marked by
      someone else. */
  datatype Log = Log(rows: Rows, tries: map<nat, seq<Try>>, marked: set<nat>)

  datatype Act =
    | Create(id: nat, topic: string, msg: nat, now: real)
    | InlineSent(id: nat)
    | Round(now: real, batch: seq<nat>, env: seq<Attempt>)
    | Cleanup(now: real)

  ghost predicate Enabled(l: Log, a: Act) {
    match a
    case Create(id, _, _, _) => id !in l.rows && id !in l.tries
    case InlineSent(id) => id in l.tries
    case Round(now, batch, env) =>
      IsBatch(l.rows, now, BATCH, batch) && |env| == BATCH &&
      forall i :: 0 <= i < |env| ==> now <= env[i].clock
    case Cleanup(_) => true
  }

  /** The row of `id` after a whole round. */
  function RoundRow(r: Row, id: nat, batch: seq<nat>, env: seq<Attempt>): Row
    requires |batch| <= |env|
  {
    if id in batch then Handled(r, r, env[Position(batch, id)]) else r
  }

  function Position(batch: seq<nat>, id: nat): (i: nat)
    requires id in batch
    ensures i < |batch| && batch[i] == id
  {
    if batch[0] == id then 0 else 1 + Position(batch[1..], id)
  }

  function RoundRows(rows: Rows, batch: seq<nat>, env: seq<Attempt>): Rows
    requires |batch| <= |env|
  {
    map id | id in rows :: RoundRow(rows[id], id, batch, env)
  }

  function TryOf(now: real, a: Attempt): Try {
    Try(now, a.outcome, a.clock)
  }

  function RoundTries(l: Log, now: real, batch: seq<nat>, env: seq<Attempt>): map<nat, seq<Try>>
    requires |batch| <= |env|
  {
    map id | id in l.tries ::
      if id in batch && id in l.rows && l.rows[id].topic == TOPIC_MESSAGE_NEW
      then l.tries[id] + [TryOf(now, env[Position(batch, id)])]
      else l.tries[id]
  }

  ghost function Apply(l: Log, a: Act): Log
    requires Enabled(l, a)
  {
    match a
    case Create(id, topic, msg, now) =>
      Log(l.rows[id := NewRow(topic, msg, now)], l.tries[id := []], l.marked)
    case InlineSent(id) => Log(MarkSent(l.rows, id), l.tries, l.marked + {id})
    case Round(now, batch, env) =>
      Log(RoundRows(l.rows, batch, env), RoundTries(l, now, batch, env), l.marked)
    case Cleanup(now) => Log(WithoutExpired(l.rows, now, CLEANUP_AGE_SECONDS), l.tries, l.marked)
  }

  /** What happens beside the worker's rounds: a send adds a pending row, an inline dispatch marks
      its row, cleanup removes the sent rows of more than seven days. */
  lemma OtherActsExact(l: Log, a: Act, id: nat)
    requires Enabled(l, a) && !a.Round?
    ensures var rows, rows' := l.rows, Apply(l, a).rows;
            match a
            case Create(n, topic, msg, now) =>
              (id in rows' <==> id in rows || id == n) &&
              (id in rows' ==> rows'[id] == if id == n then Row(topic, msg, Pending, 0, AtOnce, now) else rows[id])
            case InlineSent(n) =>
              (id in rows' <==> id in rows) &&
              (id in rows' ==> rows'[id] == if id == n then rows[id].(status := Sent, next := AtOnce) else rows[id])
            case Cleanup(now) =>
              (id in rows' <==> id in rows && !(rows[id].status == Sent && rows[id].created < now - 604800.0)) &&
              (id in rows' ==> rows'[id] == rows[id])
    ensures a.InlineSent? ==> Apply(l, a).marked == l.marked + {a.id}
    ensures !a.InlineSent? ==> Apply(l, a).marked == l.marked
  {
  }

  /** The method `ProcessOnce` does what `Round` says. */
  lemma {:induction false} AfterBatchAt(rows: Rows, batch: seq<nat>, env: seq<Attempt>, n: nat, id: nat)
    requires n <= |batch| <= |env| && id in rows
    requires forall i :: 0 <= i < |batch| ==> batch[i] in rows
    requires forall i, j :: 0 <= i < j < |batch| ==> batch[i] < batch[j]
    ensures id in AfterBatch(rows, batch, env, n)
    ensures AfterBatch(rows, batch, env, n)[id] ==
              if id in batch && Position(batch, id) < n
              then Handled(rows[id], rows[id], env[Position(batch, id)]) else rows[id]
  {
    if n > 0 {
      AfterBatchAt(rows, batch, env, n - 1, id);
    }
  }

  lemma {:induction false} AfterBatchKeys(rows: Rows, batch: seq<nat>, env: seq<Attempt>, n: nat)
    requires n <= |batch| <= |env|
    requires forall i :: 0 <= i < |batch| ==> batch[i] in rows
    ensures AfterBatch(rows, batch, env, n).Keys == rows.Keys
  {
    if n > 0 {
      AfterBatchKeys(rows, batch, env, n - 1);
    }
  }

  lemma RoundIsProcessOnce(rows: Rows, now: real, batch: seq<nat>, env: seq<Attempt>)
    requires IsBatch(rows, now, BATCH, batch) && |env| == BATCH
    ensures AfterBatch(rows, batch, env, |batch|) == RoundRows(rows, batch, env)
  {
    AfterBatchKeys(rows, batch, env, |batch|);
    forall id | id in rows ensures AfterBatch(rows, batch, env, |batch|)[id] == RoundRow(rows[id], id, batch, env) {
      AfterBatchAt(rows, batch, env, |batch|, id);
    }
  }

  lemma HandledExact(r: Row, a: Attempt)
    ensures var r' := Handled(r, r, a);
            if r.topic != "message.new" || a.outcome == Delivered then
              r' == r.(status := Sent, next := AtOnce)
            else if r.retry >= 4 then
              r' == r.(status := Dead, retry := r.retry + 1, next := AtOnce)
            else if a.outcome == Unrecorded then
              r' == r.(status := Sent, next := AtOnce)
            else
              r.status == Pending ==>
                r' == r.(retry := r.retry + 1,
                         next := At(a.clock + (if r.retry == 0 then 1.0 else if r.retry == 1 then 2.0
                                               else if r.retry == 2 then 4.0 else 8.0)))
  {
    Pow2Doubles(r.retry);
  }

  lemma PositionOf(batch: seq<nat>, i: nat)
    requires i < |batch| && forall x, y :: 0 <= x < y < |batch| ==> batch[x] < batch[y]
    ensures batch[i] in batch && Position(batch, batch[i]) == i
  {
  }

  /** What one round does to a row, in numbers: back-off doubles from one second, and the fifth
      failure makes a dead letter. Rows outside the batch stay as they are. */
  lemma RoundExactly(rows: Rows, now: real, batch: seq<nat>, env: seq<Attempt>, i: nat)
    requires IsBatch(rows, now, BATCH, batch) && |env| == BATCH && i < |batch|
    ensures batch[i] in AfterBatch(rows, batch, env, |batch|)
    ensures var r, r' := rows[batch[i]], AfterBatch(rows, batch, env, |batch|)[batch[i]];
            if r.topic != "message.new" || env[i].outcome == Delivered then
              r' == r.(status := Sent, next := AtOnce)
            else if r.retry >= 4 then
              r' == r.(status := Dead, retry := r.retry + 1, next := AtOnce)
            else if env[i].outcome == Unrecorded then
              r' == r.(status := Sent, next := AtOnce)
            else
              r' == r.(retry := r.retry + 1,
                       next := At(env[i].clock + (if r.retry == 0 then 1.0 else if r.retry == 1 then 2.0
                                                  else if r.retry == 2 then 4.0 else 8.0)))
  {
    AfterBatchAt(rows, batch, env, |batch|, batch[i]);
    PositionOf(batch, i);
    HandledExact(rows[batch[i]], env[i]);
  }

  /** Rows outside the batch stay as they are, and none comes or goes. */
  lemma RoundElsewhere(rows: Rows, now: real, batch: seq<nat>, env: seq<Attempt>, id: nat)
    requires IsBatch(rows, now, BATCH, batch) && |env| == BATCH && id !in batch
    ensures id in AfterBatch(rows, batch, env, |batch|) <==> id in rows
    ensures id in rows ==> AfterBatch(rows, batch, env, |batch|)[id] == rows[id]
  {
    AfterBatchKeys(rows, batch, env, |batch|);
    if id in rows {
      AfterBatchAt(rows, batch, env, |batch|, id);
    }
  }

  // ----- what one row's history looks like

  /** Attempt i + 1 is polled at least 2^i seconds after attempt i. */
  ghost predicate Spaced(ts: seq<Try>) {
    forall i :: 0 <= i < |ts| - 1 ==> ts[i].polled + Pow2(i) as real <= ts[i + 1].polled
  }

  ghost predicate Raises(t: Try) {
    t.outcome == Raised
  }

  /** Only the last attempt can have ended otherwise than by raising. */
  ghost predicate RaisedBefore(ts: seq<Try>) {
    forall i :: 0 <= i < |ts| - 1 ==> Raises(ts[i])
  }

  /** The status and the count of a row that nobody else has marked, from its attempts. */
  ghost predicate StatusFits(r: Row, ts: seq<Try>) {
    if r.topic != TOPIC_MESSAGE_NEW then ts == [] && r.status != Dead && r.retry == 0
    else if ts == [] || ts[|ts| - 1].outcome == Raised then
      r.retry == |ts| && r.status == if |ts| < MAX_RETRY then Pending else Dead
    else if ts[|ts| - 1].outcome == Unrecorded && |ts| == MAX_RETRY then r.retry == |ts| && r.status == Dead
    else r.retry == |ts| - 1 && r.status == Sent
  }

  ghost predicate RowFits(r: Row, ts: seq<Try>, marked: bool) {
    |ts| <= MAX_RETRY && Spaced(ts) && RaisedBefore(ts) &&
    (if marked then r.status == Sent else StatusFits(r, ts)) &&
    (r.status == Pending ==>
      if ts == [] then r.next == AtOnce
      else
        r.next == At(ts[|ts| - 1].written + Pow2(|ts| - 1) as real) &&
        ts[|ts| - 1].polled <= ts[|ts| - 1].written)
  }

  ghost predicate Fits(l: Log) {
    l.rows.Keys <= l.tries.Keys && l.marked <= l.tries.Keys &&
    (forall id :: id in l.rows ==> RowFits(l.rows[id], l.tries[id], id in l.marked)) &&
    (forall id :: id in l.tries ==>
      |l.tries[id]| <= MAX_RETRY && Spaced(l.tries[id]) && RaisedBefore(l.tries[id]))
  }

  lemma HandledFits(r: Row, ts: seq<Try>, marked: bool, now: real, a: Attempt)
    requires RowFits(r, ts, marked) && IsDue(r, now) && now <= a.clock
    requires r.topic == TOPIC_MESSAGE_NEW
    ensures RowFits(Handled(r, r, a), ts + [TryOf(now, a)], marked)
  {
    var ts' := ts + [TryOf(now, a)];
    assert forall i :: 0 <= i < |ts| ==> ts'[i] == ts[i];
    assert ts'[|ts|].outcome == a.outcome;
  }

  lemma StepFits(l: Log, a: Act)
    requires Fits(l) && Enabled(l, a)
    ensures Fits(Apply(l, a))
  {
    var l' := Apply(l, a);
    if a.Round? {
      forall id | id in l'.tries
        ensures |l'.tries[id]| <= MAX_RETRY && Spaced(l'.tries[id]) && RaisedBefore(l'.tries[id])
        ensures id in l'.rows ==> RowFits(l'.rows[id], l'.tries[id], id in l'.marked)
      {
        if id in a.batch && id in l.rows && l.rows[id].topic == TOPIC_MESSAGE_NEW {
          var i := Position(a.batch, id);
          assert IsDue(l.rows[a.batch[i]], a.now);
          HandledFits(l.rows[id], l.tries[id], id in l.marked, a.now, a.env[i]);
        }
      }
    }
  }

  // ----- whole runs

  ghost predicate Run(l: Log, acts: seq<Act>, l': Log)
    decreases |acts|
  {
    if acts == [] then l == l'
    else Enabled(l, acts[0]) && Run(Apply(l, acts[0]), acts[1..], l')
  }

  ghost const EMPTY_LOG: Log := Log(map[], map[], {})

  lemma {:induction false} RunFits(l: Log, acts: seq<Act>, l': Log)
    requires Fits(l) && Run(l, acts, l')
    ensures Fits(l')
    decreases |acts|
  {
    if acts != [] {
      StepFits(l, acts[0]);
      RunFits(Apply(l, acts[0]), acts[1..], l');
    }
  }

  /** Attempt i + 1 is polled at least 1, 2, 4, 8 seconds after attempt i. */
  lemma SpacedNumbers(ts: seq<Try>)
    requires Spaced(ts)
    ensures |ts| > 1 ==> ts[0].polled + 1.0 <= ts[1].polled
    ensures |ts| > 2 ==> ts[1].polled + 2.0 <= ts[2].polled
    ensures |ts| > 3 ==> ts[2].polled + 4.0 <= ts[3].polled
    ensures |ts| > 4 ==> ts[3].polled + 8.0 <= ts[4].polled
  {
    Pow2Doubles(0);
    assert |ts| > 1 ==> ts[0].polled + Pow2(0) as real <= ts[1].polled;
    assert |ts| > 2 ==> ts[1].polled + Pow2(1) as real <= ts[2].polled;
    assert |ts| > 3 ==> ts[2].polled + Pow2(2) as real <= ts[3].polled;
    assert |ts| > 4 ==> ts[3].polled + Pow2(3) as real <= ts[4].polled;
  }

  /** The promises of the retry scheme, after any sequence of sends, inline dispatches, polling
      rounds with any outcomes, and cleanups. */
  lemma RetryPromises(acts: seq<Act>, l: Log, id: nat)
    requires Run(EMPTY_LOG, acts, l) && id in l.rows
    ensures id in l.tries && |l.tries[id]| <= 5
    // only the last attempt can have ended otherwise than by raising
    ensures forall i :: 0 <= i < |l.tries[id]| - 1 ==> l.tries[id][i].outcome == Raised
    // the status and the count are determined by the attempts
    ensures var r, ts := l.rows[id], l.tries[id];
            if id in l.marked then r.status == Sent
            else if r.topic != "message.new" then ts == [] && r.status != Dead && r.retry == 0
            else if ts == [] || ts[|ts| - 1].outcome == Raised then
              r.retry == |ts| && r.status == if |ts| < 5 then Pending else Dead
            else if ts[|ts| - 1].outcome == Unrecorded && |ts| == 5 then r.retry == 5 && r.status == Dead
            else r.retry == |ts| - 1 && r.status == Sent
    // a pending row is due at once, then 1, 2, 4, 8 seconds after its last failure was written
    ensures var r, ts := l.rows[id], l.tries[id];
            r.status == Pending && r.topic == "message.new" ==>
              if ts == [] then r.next == AtOnce
              else r.next == At(ts[|ts| - 1].written + (if |ts| == 1 then 1.0 else if |ts| == 2 then 2.0
                                                        else if |ts| == 3 then 4.0 else 8.0))
    // five attempts are polled over at least 15 seconds
    ensures var ts := l.tries[id];
            |ts| == 5 ==>
              ts[0].polled + 1.0 <= ts[1].polled && ts[1].polled + 2.0 <= ts[2].polled &&
              ts[2].polled + 4.0 <= ts[3].polled && ts[3].polled + 8.0 <= ts[4].polled &&
              ts[0].polled + 15.0 <= ts[4].polled
  {
    RunFits(EMPTY_LOG, acts, l);
    var r, ts := l.rows[id], l.tries[id];
    assert forall i :: 0 <= i < |ts| - 1 ==> Raises(ts[i]);
    SpacedNumbers(ts);
    if r.status == Pending && ts != [] {
      Pow2Doubles(0);
    }
  }

  lemma {:induction false} RunSnoc(l: Log, acts: seq<Act>, m: Log, a: Act)
    requires Run(l, acts, m) && Enabled(m, a)
    ensures Run(l, acts + [a], Apply(m, a))
    decreases |acts|
  {
    if acts == [] {
      assert [a][1..] == [];
      assert acts + [a] == [a];
      assert Run(Apply(m, a), [], Apply(m, a));
    } else {
      assert (acts + [a])[1..] == acts[1..] + [a];
      RunSnoc(Apply(l, acts[0]), acts[1..], m, a);
    }
  }

  /** One round over a single row that is due, whose dispatch raises and is written at once. */
  lemma FailingRound(acts: seq<Act>, l: Log, now: real) returns (acts': seq<Act>, l': Log)
    requires Run(EMPTY_LOG, acts, l) && l.rows.Keys == {1} && l.marked == {}
    requires IsDue(l.rows[1], now) && l.rows[1].topic == TOPIC_MESSAGE_NEW && 1 in l.tries
    ensures Run(EMPTY_LOG, acts', l') && l'.rows.Keys == {1} && l'.marked == {}
    ensures l'.rows[1].topic == TOPIC_MESSAGE_NEW
    ensures 1 in l'.tries && l'.tries[1] == l.tries[1] + [Try(now, Raised, now)]
  {
    var env := seq(BATCH, _ => Attempt(Raised, now));
    var a := Round(now, [1], env);
    assert l.rows[1].status == Pending;
    assert Position([1], 1) == 0;
    RunSnoc(EMPTY_LOG, acts, l, a);
    acts', l' := acts + [a], Apply(l, a);
  }

  /** When the next attempt of a row that has failed n times comes at the earliest, counted from
      its creation. */
  function FirstPoll(n: nat): real {
    (Pow2(n) - 1) as real
  }

  /** A row all of whose attempts fail, each at the earliest moment. */
  lemma {:induction false} FailsAtOnce(n: nat) returns (acts: seq<Act>, l: Log)
    requires n <= MAX_RETRY
    ensures Run(EMPTY_LOG, acts, l) && l.rows.Keys == {1} && l.marked == {}
    ensures l.rows[1].topic == TOPIC_MESSAGE_NEW
    ensures 1 in l.tries && |l.tries[1]| == n
    ensures forall i :: 0 <= i < n ==> l.tries[1][i] == Try(FirstPoll(i), Raised, FirstPoll(i))
  {
    if n == 0 {
      var a := Create(1, TOPIC_MESSAGE_NEW, 1, 0.0);
      assert Run(EMPTY_LOG, [], EMPTY_LOG);
      RunSnoc(EMPTY_LOG, [], EMPTY_LOG, a);
      acts, l := [] + [a], Apply(EMPTY_LOG, a);
    } else {
      acts, l := FailsAtOnce(n - 1);
      DueAgain(acts, l, n - 1);
      acts, l := FailingRound(acts, l, FirstPoll(n - 1));
    }
  }

  lemma DueAgain(acts: seq<Act>, l: Log, n: nat)
    requires Run(EMPTY_LOG, acts, l) && l.rows.Keys == {1} && l.marked == {} && n < MAX_RETRY
    requires l.rows[1].topic == TOPIC_MESSAGE_NEW && 1 in l.tries && |l.tries[1]| == n
    requires forall i :: 0 <= i < n ==> l.tries[1][i] == Try(FirstPoll(i), Raised, FirstPoll(i))
    ensures IsDue(l.rows[1], FirstPoll(n))
  {
    RunFits(EMPTY_LOG, acts, l);
  }

  /** The bounds are attained: a row can die fifteen seconds after its first attempt, and not
      before its fifth. */
  lemma FifteenSecondsAttained() returns (acts: seq<Act>, l: Log)
    ensures Run(EMPTY_LOG, acts, l) && 1 in l.rows && l.rows[1].status == Dead
    ensures 1 in l.tries && |l.tries[1]| == 5 && l.tries[1][4].polled == l.tries[1][0].polled + 15.0
  {
    acts, l := FailsAtOnce(MAX_RETRY);
    RetryPromises(acts, l, 1);
    Pow2Doubles(3);
    assert l.tries[1][0] == Try(FirstPoll(0), Raised, FirstPoll(0));
    assert l.tries[1][4] == Try(FirstPoll(4), Raised, FirstPoll(4));
  }

  // ----- total work

  /** What a row can still cost. */
  function Weight(rows: Rows, id: nat): int {
    if id in rows && rows[id].status == Pending then MAX_RETRY - rows[id].retry else 0
  }

  /** The attempts still possible for the rows with ids below `n`. */
  function Budget(rows: Rows, n: nat): int {
    if n == 0 then 0 else Budget(rows, n - 1) + Weight(rows, n - 1)
  }

  function RecordsHandled(acts: seq<Act>): nat {
    if acts == [] then 0
    else (if acts[0].Round? then |acts[0].batch| else 0) + RecordsHandled(acts[1..])
  }

  ghost predicate PendingBelowMax(rows: Rows) {
    forall id :: id in rows && rows[id].status == Pending ==> rows[id].retry < MAX_RETRY
  }

  lemma {:induction false} BudgetUpdate(rows: Rows, id: nat, r: Row, n: nat)
    requires id in rows && id < n
    ensures Budget(rows[id := r], n) == Budget(rows, n) + Weight(rows[id := r], id) - Weight(rows, id)
  {
    if id < n - 1 {
      BudgetUpdate(rows, id, r, n - 1);
    } else {
      BudgetElsewhere(rows, id, r, n - 1);
    }
  }

  lemma {:induction false} BudgetElsewhere(rows: Rows, id: nat, r: Row, n: nat)
    requires id >= n
    ensures Budget(rows[id := r], n) == Budget(rows, n)
  {
    if n > 0 {
      BudgetElsewhere(rows, id, r, n - 1);
    }
  }

  /** Every record a round handles takes at least one unit of budget. */
  lemma {:induction false} BatchSpends(rows: Rows, now: real, batch: seq<nat>, env: seq<Attempt>, k: nat, n: nat)
    requires IsBatch(rows, now, BATCH, batch) && |env| == BATCH && PendingBelowMax(rows)
    requires k <= |batch| && forall id :: id in rows ==> id < n
    ensures Budget(AfterBatch(rows, batch, env, k), n) + k <= Budget(rows, n)
  {
    if k > 0 {
      BatchSpends(rows, now, batch, env, k - 1, n);
      var before, id := AfterBatch(rows, batch, env, k - 1), batch[k - 1];
      AfterBatchAt(rows, batch, env, k - 1, id);
      BudgetUpdate(before, id, Handled(before[id], rows[id], env[k - 1]), n);
    }
  }

  lemma MarkSpends(rows: Rows, id: nat, n: nat)
    requires PendingBelowMax(rows) && forall i :: i in rows ==> i < n
    ensures Budget(MarkSent(rows, id), n) <= Budget(rows, n)
  {
    if id in rows {
      BudgetUpdate(rows, id, SentRow(rows[id]), n);
    }
  }

  lemma {:induction false} CleanupKeepsBudget(rows: Rows, now: real, n: nat)
    ensures Budget(WithoutExpired(rows, now, CLEANUP_AGE_SECONDS), n) == Budget(rows, n)
  {
    if n > 0 {
      CleanupKeepsBudget(rows, now, n - 1);
    }
  }

  lemma FitsBelowMax(l: Log)
    requires Fits(l)
    ensures PendingBelowMax(l.rows)
  {
  }

  lemma StepSpends(l: Log, a: Act, n: nat)
    requires PendingBelowMax(l.rows) && Enabled(l, a) && !a.Create? && forall id :: id in l.rows ==> id < n
    ensures Apply(l, a).rows.Keys <= l.rows.Keys
    ensures (if a.Round? then |a.batch| else 0) + Budget(Apply(l, a).rows, n) <= Budget(l.rows, n)
  {
    match a {
      case InlineSent(id) => MarkSpends(l.rows, id, n);
      case Round(now, batch, env) =>
        BatchSpends(l.rows, now, batch, env, |batch|, n);
        RoundIsProcessOnce(l.rows, now, batch, env);
      case Cleanup(now) => CleanupKeepsBudget(l.rows, now, n);
    }
  }

  /** Without new sends the work is bounded: all records ever handled, plus the budget left,
      fit into the budget at the start. */
  lemma {:induction false} WorkIsBounded(l: Log, acts: seq<Act>, l': Log, n: nat)
    requires Fits(l) && Run(l, acts, l') && forall id :: id in l.rows ==> id < n
    requires forall i :: 0 <= i < |acts| ==> !acts[i].Create?
    ensures RecordsHandled(acts) + Budget(l'.rows, n) <= Budget(l.rows, n)
    decreases |acts|
  {
    if acts != [] {
      FitsBelowMax(l);
      StepFits(l, acts[0]);
      StepSpends(l, acts[0], n);
      WorkIsBounded(Apply(l, acts[0]), acts[1..], l', n);
    }
  }

  /** n rows absorb at most MAX_RETRY * n attempts. */
  lemma {:induction false} BudgetBound(rows: Rows, n: nat)
    ensures Budget(rows, n) <= MAX_RETRY * n
  {
    if n > 0 {
      BudgetBound(rows, n - 1);
    }
  }

  lemma {:induction false} BudgetNotNegative(rows: Rows, n: nat)
    requires PendingBelowMax(rows)
    ensures Budget(rows, n) >= 0
  {
    if n > 0 {
      BudgetNotNegative(rows, n - 1);
    }
  }

  /** After the last send the worker handles at most 5 * n more records, n being the
      number of row ids handed out. */
  lemma WorkEnds(before: seq<Act>, l: Log, acts: seq<Act>, l': Log, n: nat)
    requires Run(EMPTY_LOG, before, l) && Run(l, acts, l') && forall id :: id in l.rows ==> id < n
    requires forall i :: 0 <= i < |acts| ==> !acts[i].Create?
    ensures RecordsHandled(acts) <= 5 * n
  {
    RunFits(EMPTY_LOG, before, l);
    RunFits(l, acts, l');
    WorkIsBounded(l, acts, l', n);
    BudgetBound(l.rows, n);
    BudgetNotNegative(l'.rows, n);
  }
}
