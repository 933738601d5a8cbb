/** What every interleaved run of the delivery protocol guarantees, and what it does not. */
module DeliveryRuns {
  import opened Outbox
  import opened Delivery

  ghost predicate Run(s: State, acts: seq<Act>, s': State)
    decreases |acts|
  {
    if acts == [] then s == s'
    else Enabled(s, acts[0]) && Run(Apply(s, acts[0]), acts[1..], s')
  }

  /** An empty system with any rooms. */
  ghost predicate Init(s: State) {
    s.db.messages == map[] && s.db.rows == map[] && s.rowOf == map[] && s.jobs == map[] &&
    s.db.nextMsg > 0 && s.bus == EL.EMPTY_BUS && forall r :: r in s.db.rooms ==> s.db.rooms[r].lastMsg == 0
  }

  lemma {:induction false} RunKeepsInv(s: State, acts: seq<Act>, s': State)
    requires Inv(s) && Run(s, acts, s')
    ensures Inv(s')
    decreases |acts|
  {
    if acts != [] {
      StepKeepsInv(s, acts[0]);
      RunKeepsInv(Apply(s, acts[0]), acts[1..], s');
    }
  }

  ghost predicate Reachable(s: State) {
    exists s0, acts :: Init(s0) && Run(s0, acts, s)
  }

  lemma ReachableInv(s: State)
    requires Reachable(s)
    ensures Inv(s)
  {
    var s0, acts :| Init(s0) && Run(s0, acts, s);
    assert Announced(s0.bus.history) == {};
    RunKeepsInv(s0, acts, s);
  }

  /** A committed message is never lost: its event has been appended, or its own row is still
      there, waiting or dead-lettered. */
  lemma NothingLost(s: State, m: nat)
    requires Reachable(s) && m in s.db.messages
    ensures m in s.rowOf
    ensures m in Announced(s.bus.history) ||
            (var id := s.rowOf[m];
             id in s.db.rows && s.db.rows[id].topic == TOPIC_MESSAGE_NEW && s.db.rows[id].msg == m &&
             (s.db.rows[id].status == Pending || s.db.rows[id].status == Dead))
  {
    ReachableInv(s);
  }

  /** A row marked sent has had its event appended, and only committed messages are announced;
      each is not newer than its room's last message. */
  lemma SentMeansAnnounced(s: State)
    requires Reachable(s)
    ensures forall id :: id in s.db.rows && s.db.rows[id].topic == TOPIC_MESSAGE_NEW && s.db.rows[id].status == Sent ==>
              s.db.rows[id].msg in Announced(s.bus.history)
    ensures Announced(s.bus.history) <= s.db.messages.Keys
    ensures forall m :: m in s.db.messages ==>
              s.db.messages[m].room in s.db.rooms && m <= s.db.rooms[s.db.messages[m].room].lastMsg
  {
    ReachableInv(s);
  }

  /** What a reconnecting client gets in any reachable state. */
  lemma ClientsGetOwedEventsOnce(s: State, user: nat, last: int)
    requires Reachable(s)
    ensures var got := EL.Replayed(EL.Newest(s.bus.log), user, last);
            (forall i :: 0 <= i < |got| ==> EL.Owed(s.bus.history, user, last, got[i])) &&
            (forall i, j :: 0 <= i < j < |got| ==> got[i].seqNo != got[j].seqNo)
  {
    ReachableInv(s);
    EL.ReplaySound(s.bus, user, last);
  }

  // ----- what becomes of a row

  /** A row may not return to pending, lose retries or change what it is about. */
  ghost predicate RowKept(before: Row, after: Row) {
    (after.status == Pending ==> before.status == Pending) && before.retry <= after.retry &&
    after.topic == before.topic && after.msg == before.msg && after.created == before.created
  }

  /** How one step may change the table: only expired sent rows disappear. */
  ghost predicate RowMoves(before: Rows, after: Rows, now: real) {
    (forall id :: id in before && id in after ==> RowKept(before[id], after[id])) &&
    (forall id :: id in before && id !in after ==> Expired(before[id], now, CLEANUP_AGE_SECONDS))
  }

  lemma StatementsMoveForward(rows: Rows, id: nat, now: real, clock: real, n: nat)
    ensures RowMoves(rows, rows, now)
    ensures RowMoves(rows, MarkSent(rows, id), now)
    ensures RowMoves(rows, MarkDead(rows, id), now)
    ensures RowMoves(rows, MarkRetry(rows, id, clock, n), now)
    ensures RowMoves(rows, WithoutExpired(rows, now, CLEANUP_AGE_SECONDS), now)
  {
  }

  /** What a dispatch step does to the table. */
  function RowsAfter(rows: Rows, k: Job, now: real): Rows {
    match k.pc
    case Drop => MarkSent(rows, k.row)
    case Mark => MarkSent(rows, k.row)
    case Recheck => MarkSent(rows, k.row)
    case Failed =>
      if k.owner.Inline? then rows
      else if k.owner.retrySeen + 1 >= MAX_RETRY then MarkDead(rows, k.row)
      else MarkRetry(rows, k.row, now, Worker.Pow2(k.owner.retrySeen))
    case _ => rows
  }

  lemma StepJobRows(s: State, t: nat)
    requires t in s.jobs
    ensures StepJob(s, t).db.rows == RowsAfter(s.db.rows, s.jobs[t], s.now)
  {
    match s.jobs[t].pc {
      case Lookup =>
      case Drop =>
      case Draw(to) =>
      case Push(q, to) =>
      case Trim =>
      case Mark =>
      case Recheck =>
      case Written =>
      case Failed =>
    }
  }

  /** A dispatch step creates nothing in the database. */
  lemma StepJobKeeps(s: State, t: nat)
    requires t in s.jobs
    ensures var s' := StepJob(s, t);
            s'.db.nextRow == s.db.nextRow && s'.db.messages == s.db.messages && s'.rowOf == s.rowOf && s'.now == s.now
  {
    match s.jobs[t].pc {
      case Lookup =>
      case Drop =>
      case Draw(to) =>
      case Push(q, to) =>
      case Trim =>
      case Mark =>
      case Recheck =>
      case Written =>
      case Failed =>
    }
  }

  lemma RowsAfterMoves(rows: Rows, k: Job, now: real)
    ensures RowMoves(rows, RowsAfter(rows, k, now), now)
  {
    StatementsMoveForward(rows, k.row, now, now, if k.owner.ByWorker? then Worker.Pow2(k.owner.retrySeen) else 0);
  }

  lemma RowsMoveFresh(s: State, a: Act)
    requires Enabled(s, a) && s.db.nextRow !in s.db.rows
    ensures RowMoves(s.db.rows, Apply(s, a).db.rows, s.now)
  {
    match a {
      case Advance(t) =>
        StepJobRows(s, t);
        RowsAfterMoves(s.db.rows, s.jobs[t], s.now);
      case DropUnknown(row) => StatementsMoveForward(s.db.rows, row, s.now, s.now, 0);
      case Send(_) =>
      case Foreign(_, _) =>
      case _ => StatementsMoveForward(s.db.rows, 0, s.now, s.now, 0);
    }
  }

  lemma RowsMoveForward(s: State, a: Act)
    requires Inv(s) && Enabled(s, a)
    ensures RowMoves(s.db.rows, Apply(s, a).db.rows, s.now)
  {
    RowsMoveFresh(s, a);
  }

  /** Ids are not used twice, and the clock does not go back. */
  lemma CountersGrow(s: State, a: Act)
    requires Enabled(s, a)
    ensures s.db.nextRow <= Apply(s, a).db.nextRow && s.now <= Apply(s, a).now
  {
    if a.Advance? {
      StepJobKeeps(s, a.job);
    }
  }

  /** Every new row has the next id. */
  lemma NewRowId(s: State, a: Act, id: nat)
    requires Enabled(s, a) && id !in s.db.rows && id in Apply(s, a).db.rows
    ensures id == s.db.nextRow && Apply(s, a).db.rows[id].retry == 0
  {
    if a.Advance? {
      StepJobRows(s, a.job);
      RowsAfterKeys(s.db.rows, s.jobs[a.job], s.now);
    }
  }

  lemma RowsAfterKeys(rows: Rows, k: Job, now: real)
    ensures RowsAfter(rows, k, now).Keys == rows.Keys
  {
  }

  /** A deleted row never comes back. */
  lemma {:induction false} GoneForever(s: State, acts: seq<Act>, s': State, id: nat)
    requires Run(s, acts, s') && id < s.db.nextRow && id !in s.db.rows
    ensures id !in s'.db.rows
    decreases |acts|
  {
    if acts != [] {
      CountersGrow(s, acts[0]);
      if id in Apply(s, acts[0]).db.rows {
        NewRowId(s, acts[0], id);
      }
      GoneForever(Apply(s, acts[0]), acts[1..], s', id);
    }
  }

  lemma {:induction false} ClockGrows(s: State, acts: seq<Act>, s': State)
    requires Run(s, acts, s')
    ensures s.now <= s'.now
    decreases |acts|
  {
    if acts != [] {
      CountersGrow(s, acts[0]);
      ClockGrows(Apply(s, acts[0]), acts[1..], s');
    }
  }

  /** Over any stretch of a run a row never returns to pending and never loses a retry, and it
      is only deleted at an age of more than seven days. */
  lemma {:induction false} NeverBackToPending(s: State, acts: seq<Act>, s': State, id: nat)
    requires Inv(s) && Run(s, acts, s') && id in s.db.rows
    ensures id in s'.db.rows ==> RowKept(s.db.rows[id], s'.db.rows[id])
    ensures id !in s'.db.rows ==> s.db.rows[id].created < s'.now - CLEANUP_AGE_SECONDS
    decreases |acts|
  {
    if acts != [] {
      var m := Apply(s, acts[0]);
      StepKeepsInv(s, acts[0]);
      RowsMoveForward(s, acts[0]);
      if id in m.db.rows {
        NeverBackToPending(m, acts[1..], s', id);
      } else {
        CountersGrow(s, acts[0]);
        GoneForever(m, acts[1..], s', id);
        ClockGrows(m, acts[1..], s');
      }
    }
  }

  // ----- which step changes a row how

  /** The attempt of a worker that has read the last count but one, or more: its failure makes
      the row a dead letter. */
  predicate LastTry(k: Job, id: nat) {
    k.owner.ByWorker? && k.row == id && k.owner.retrySeen + 1 >= MAX_RETRY
  }

  /** The attempt of a worker whose failure leaves the row pending. */
  predicate EarlierTry(k: Job, id: nat) {
    k.owner.ByWorker? && k.row == id && k.owner.retrySeen + 1 < MAX_RETRY
  }

  /** The step writes the failure of an attempt into the row. */
  ghost predicate Counts(s: State, a: Act, id: nat) {
    a.Advance? && a.job in s.jobs && s.jobs[a.job].pc.Failed? && id in s.db.rows &&
    (LastTry(s.jobs[a.job], id) || (EarlierTry(s.jobs[a.job], id) && s.db.rows[id].status == Pending))
  }

  /** Each step either writes one failure into a row or leaves its count alone; a row leaves its
      status only by that, or by being marked sent. */
  lemma StepOnRow(s: State, a: Act, id: nat)
    requires Inv(s) && Enabled(s, a) && id in s.db.rows && id in Apply(s, a).db.rows
    ensures var r, r' := s.db.rows[id], Apply(s, a).db.rows[id];
            if Counts(s, a, id)
            then r'.retry == r.retry + 1 && r'.status == if LastTry(s.jobs[a.job], id) then Dead else Pending
            else r'.retry == r.retry && (r'.status == r.status || r'.status == Sent)
  {
    if a.Advance? {
      StepJobRows(s, a.job);
      JobOnRow(s.db.rows, s.jobs[a.job], s.now, id);
    }
  }

  lemma JobOnRow(rows: Rows, k: Job, now: real, id: nat)
    requires id in rows
    ensures id in RowsAfter(rows, k, now)
    ensures var r, r' := rows[id], RowsAfter(rows, k, now)[id];
            if k.pc.Failed? && (LastTry(k, id) || (EarlierTry(k, id) && r.status == Pending))
            then r'.retry == r.retry + 1 && r'.status == if LastTry(k, id) then Dead else Pending
            else r'.retry == r.retry && (r'.status == r.status || r'.status == Sent)
  {
  }

  /** A dispatch step starts no job and changes no owner. */
  lemma StepJobJobs(s: State, t: nat)
    requires t in s.jobs
    ensures var jobs := StepJob(s, t).jobs;
            jobs.Keys <= s.jobs.Keys && (s.jobs[t].pc.Failed? ==> jobs == s.jobs - {t}) &&
            forall u :: u in jobs ==> SameJob(s.jobs[u], jobs[u])
  {
    match s.jobs[t].pc {
      case Lookup =>
      case Drop =>
      case Draw(to) =>
      case Push(q, to) =>
      case Trim =>
      case Mark =>
      case Recheck =>
      case Written =>
      case Failed =>
    }
  }

  predicate SameJob(k: Job, k': Job) {
    k'.owner == k.owner && k'.row == k.row && k'.msg == k.msg
  }

  /** Where a job of the next state comes from. */
  lemma JobOrigin(s: State, a: Act, t: nat)
    requires Enabled(s, a) && t in Apply(s, a).jobs
    ensures var k := Apply(s, a).jobs[t];
            (t in s.jobs && SameJob(s.jobs[t], k)) ||
            (t == s.nextJob && a.Send? && k == Job(Inline, s.db.nextRow, s.db.nextMsg, Lookup)) ||
            (t == s.nextJob && a.Poll? &&
              k == Job(ByWorker(s.db.rows[a.row].retry), a.row, s.db.rows[a.row].msg, Lookup))
  {
    match a {
      case Advance(u) => StepJobJobs(s, u);
      case Send(_) =>
      case Poll(_) =>
      case Fail(_) =>
      case _ =>
    }
  }
}
