/** The retry bound under every interleaving, crash and bookkeeping failure, provided no two
    workers hold the same row at once. */
module OneWorker {
  import opened Outbox
  import opened Delivery
  import opened DeliveryRuns
  import opened RetryBound

  ghost predicate HeldByWorker(jobs: map<nat, Job>, row: nat) {
    exists t :: t in jobs && HoldsRow(jobs[t], row)
  }

  predicate HoldsRow(k: Job, row: nat) {
    k.owner.ByWorker? && k.row == row
  }

  /** A worker only takes a row that no worker holds. */
  ghost predicate Exclusive(s: State, a: Act) {
    a.Poll? ==> !HeldByWorker(s.jobs, a.row)
  }

  ghost predicate WithinBound(r: Row) {
    r.retry <= MAX_RETRY && (r.status == Pending ==> r.retry < MAX_RETRY)
  }

  ghost predicate RowsBounded(rows: Rows) {
    forall id :: id in rows ==> WithinBound(rows[id])
  }

  /** The count a worker has read is still the row's count. */
  ghost predicate CountRead(rows: Rows, k: Job) {
    k.owner.ByWorker? ==>
      k.owner.retrySeen < MAX_RETRY && (k.row in rows ==> rows[k.row].retry == k.owner.retrySeen)
  }

  ghost predicate CountsRead(rows: Rows, jobs: map<nat, Job>) {
    (forall t :: t in jobs ==> CountRead(rows, jobs[t])) &&
    (forall t, u :: t in jobs && u in jobs && t != u && jobs[t].owner.ByWorker? ==>
      !HoldsRow(jobs[u], jobs[t].row))
  }

  ghost predicate Bounded(s: State) {
    RowsBounded(s.db.rows) && CountsRead(s.db.rows, s.jobs)
  }

  /** An attempt that has read the row's own count cannot take it past the bound. */
  lemma RowsStayBounded(s: State, a: Act)
    requires Inv(s) && Enabled(s, a) && Bounded(s)
    ensures RowsBounded(Apply(s, a).db.rows)
  {
    forall id | id in Apply(s, a).db.rows ensures WithinBound(Apply(s, a).db.rows[id]) {
      if id in s.db.rows {
        StepOnRow(s, a, id);
        assert WithinBound(s.db.rows[id]) && (Counts(s, a, id) ==> CountRead(s.db.rows, s.jobs[a.job]));
      } else {
        NewRowId(s, a, id);
      }
    }
  }

  lemma OldRow(s: State, t: nat)
    requires Inv(s) && t in s.jobs
    ensures s.jobs[t].row < s.db.nextRow
  {
    assert JobOk(s.jobs[t], s.rowOf, Announced(s.bus.history), s.bus.taken);
  }

  /** A failure is written by the only worker on the row, which is gone afterwards. */
  lemma OldCountStays(s: State, a: Act, t: nat)
    requires Inv(s) && Enabled(s, a) && CountsRead(s.db.rows, s.jobs) && t in s.jobs && t in Apply(s, a).jobs
    ensures CountRead(Apply(s, a).db.rows, s.jobs[t])
  {
    var k := s.jobs[t];
    assert CountRead(s.db.rows, k);
    if k.owner.ByWorker? && k.row in Apply(s, a).db.rows {
      if k.row in s.db.rows {
        StepOnRow(s, a, k.row);
        if Counts(s, a, k.row) {
          StepJobJobs(s, a.job);
        }
      } else {
        NewRowId(s, a, k.row);
        OldRow(s, t);
      }
    }
  }

  lemma CountStaysRead(s: State, a: Act, t: nat)
    requires Inv(s) && Enabled(s, a) && Bounded(s) && t in Apply(s, a).jobs
    ensures CountRead(Apply(s, a).db.rows, Apply(s, a).jobs[t])
  {
    JobOrigin(s, a, t);
    if t in s.jobs && SameJob(s.jobs[t], Apply(s, a).jobs[t]) {
      OldCountStays(s, a, t);
    } else if a.Poll? {
      assert WithinBound(s.db.rows[a.row]);
    }
  }

  lemma StillAlone(s: State, a: Act, t: nat, u: nat)
    requires Inv(s) && Enabled(s, a) && Exclusive(s, a) && Bounded(s)
    requires t in Apply(s, a).jobs && u in Apply(s, a).jobs && t != u && Apply(s, a).jobs[t].owner.ByWorker?
    ensures !HoldsRow(Apply(s, a).jobs[u], Apply(s, a).jobs[t].row)
  {
    JobOrigin(s, a, t);
    JobOrigin(s, a, u);
  }

  lemma StepBounded(s: State, a: Act)
    requires Inv(s) && Enabled(s, a) && Exclusive(s, a) && Bounded(s)
    ensures Bounded(Apply(s, a))
  {
    var s' := Apply(s, a);
    RowsStayBounded(s, a);
    forall t | t in s'.jobs ensures CountRead(s'.db.rows, s'.jobs[t]) {
      CountStaysRead(s, a, t);
    }
    forall t, u | t in s'.jobs && u in s'.jobs && t != u && s'.jobs[t].owner.ByWorker?
      ensures !HoldsRow(s'.jobs[u], s'.jobs[t].row)
    {
      StillAlone(s, a, t, u);
    }
  }

  ghost predicate ExclusiveRun(s: State, acts: seq<Act>, s': State)
    decreases |acts|
  {
    if acts == [] then s == s'
    else Enabled(s, acts[0]) && Exclusive(s, acts[0]) && ExclusiveRun(Apply(s, acts[0]), acts[1..], s')
  }

  /** What an exclusive run is: any step may follow, but a poll only if no worker holds the row. */
  lemma {:induction false} ExclusiveSnoc(s: State, acts: seq<Act>, m: State, a: Act)
    requires ExclusiveRun(s, acts, m) && Enabled(m, a)
    requires a.Poll? ==> forall t :: t in m.jobs && m.jobs[t].owner.ByWorker? ==> m.jobs[t].row != a.row
    ensures ExclusiveRun(s, acts + [a], Apply(m, a))
    decreases |acts|
  {
    if acts == [] {
      assert acts + [a] == [a] && [a][1..] == [];
      assert ExclusiveRun(Apply(m, a), [], Apply(m, a));
    } else {
      assert (acts + [a])[1..] == acts[1..] + [a];
      ExclusiveSnoc(Apply(s, acts[0]), acts[1..], m, a);
    }
  }

  lemma {:induction false} ExclusiveIsRun(s: State, acts: seq<Act>, s': State)
    requires ExclusiveRun(s, acts, s')
    ensures Run(s, acts, s')
    decreases |acts|
  {
    if acts != [] {
      ExclusiveIsRun(Apply(s, acts[0]), acts[1..], s');
    }
  }

  /** A failure written by an attempt that has read the row's own count raises no limit. */
  lemma CountReadNeverRaises(s: State, a: Act, id: nat)
    requires Enabled(s, a) && Bounded(s)
    ensures !Raises(s, a, id, MAX_RETRY - 1, false) && !Raises(s, a, id, MAX_RETRY, true)
  {
    assert a.Advance? ==> CountRead(s.db.rows, s.jobs[a.job]);
  }

  /** With at most one worker per row the steps that break the bound never occur. */
  lemma {:induction false} ExclusiveNeverRaises(s: State, acts: seq<Act>, s': State, id: nat)
    requires Inv(s) && Bounded(s) && ExclusiveRun(s, acts, s')
    ensures !RaisedBy(s, acts, id, MAX_RETRY - 1, false) && !RaisedBy(s, acts, id, MAX_RETRY, true)
    decreases |acts|
  {
    if acts != [] {
      StepKeepsInv(s, acts[0]);
      StepBounded(s, acts[0]);
      CountReadNeverRaises(s, acts[0], id);
      ExclusiveNeverRaises(Apply(s, acts[0]), acts[1..], s', id);
    }
  }

  /** With at most one worker per row, in every interleaving of sends, inline dispatches,
      failures and crashes, no row is retried more than MAX_RETRY times and a pending row has
      attempts left. */
  lemma RetryBoundHolds(s: State, acts: seq<Act>, s': State, id: nat)
    requires Init(s) && ExclusiveRun(s, acts, s') && id in s'.db.rows
    ensures s'.db.rows[id].retry <= MAX_RETRY
    ensures s'.db.rows[id].status == Pending ==> s'.db.rows[id].retry < MAX_RETRY
  {
    assert Announced(s.bus.history) == {};
    ExclusiveNeverRaises(s, acts, s', id);
    ExclusiveIsRun(s, acts, s');
    RaisedExactly(s, acts, s', id, MAX_RETRY, true);
    if s'.db.rows[id].status == Pending {
      RaisedExactly(s, acts, s', id, MAX_RETRY - 1, false);
    }
  }
}
