/** When a row that is marked sent can still lose that status: exactly while a worker holds a
    last attempt on it. */
module SentRows {
  import opened Outbox
  import opened Delivery
  import opened DeliveryRuns
  import opened Continuations

  /** A last attempt on the row is still running. */
  ghost predicate LastTryRuns(jobs: map<nat, Job>, id: nat) {
    exists t :: t in jobs && LastTry(jobs[t], id)
  }

  /** A step takes a kept row out of sent if and only if it writes the failure of a last attempt. */
  lemma SentLostExactly(s: State, a: Act, id: nat)
    requires Inv(s) && Enabled(s, a) && id in s.db.rows && s.db.rows[id].status == Sent
    requires id in Apply(s, a).db.rows
    ensures Apply(s, a).db.rows[id].status != Sent <==>
              a.Advance? && s.jobs[a.job].pc.Failed? && LastTry(s.jobs[a.job], id)
  {
    StepOnRow(s, a, id);
  }

  /** The row is sent or deleted, and no last attempt on it is running. */
  ghost predicate Settled(s: State, id: nat) {
    id < s.db.nextRow && (id in s.db.rows ==> s.db.rows[id].status == Sent) && !LastTryRuns(s.jobs, id)
  }

  lemma SettledStep(s: State, a: Act, id: nat)
    requires Inv(s) && Enabled(s, a) && Settled(s, id)
    ensures Settled(Apply(s, a), id)
  {
    var s' := Apply(s, a);
    CountersGrow(s, a);
    if id in s'.db.rows {
      if id in s.db.rows {
        SentLostExactly(s, a, id);
      } else {
        NewRowId(s, a, id);
      }
    }
    forall t | t in s'.jobs ensures !LastTry(s'.jobs[t], id) {
      JobOrigin(s, a, t);
    }
  }

  lemma {:induction false} SettledForever(s: State, acts: seq<Act>, s': State, id: nat)
    requires Inv(s) && Run(s, acts, s') && Settled(s, id)
    ensures Settled(s', id)
    decreases |acts|
  {
    if acts != [] {
      StepKeepsInv(s, acts[0]);
      SettledStep(s, acts[0], id);
      SettledForever(Apply(s, acts[0]), acts[1..], s', id);
    }
  }

  /** A last attempt that is still running can be the end of a sent row. */
  lemma LastTryKills(s0: State, s: State, id: nat, t: nat) returns (s': State)
    requires Leads(s0, s) && id in s.db.rows && t in s.jobs && LastTry(s.jobs[t], id)
    ensures Leads(s0, s') && s'.bus == s.bus
    ensures id in s'.db.rows && s'.db.rows[id] == DeadRow(s.db.rows[id])
  {
    s' := FailJob(s0, s, t);
  }

  /** A sent row can lose its status, in some continuation, if and only if a last attempt on it
      is still running: a worker that read the last count but one and has not committed. */
  lemma SentCanDieExactly(s: State, id: nat)
    requires Inv(s) && id in s.db.rows && s.db.rows[id].status == Sent
    ensures (exists s' :: Leads(s, s') && id in s'.db.rows && s'.db.rows[id].status != Sent) <==>
              LastTryRuns(s.jobs, id)
  {
    if LastTryRuns(s.jobs, id) {
      var t :| t in s.jobs && LastTry(s.jobs[t], id);
      LeadsSelf(s);
      var s' := LastTryKills(s, s, id, t);
    } else {
      forall s' | Leads(s, s') ensures id in s'.db.rows ==> s'.db.rows[id].status == Sent {
        var acts :| Run(s, acts, s');
        assert s.db.rows[id].status == Sent && id < s.db.nextRow;
        SettledForever(s, acts, s', id);
      }
    }
  }

  /** Attempt after attempt fails until one is left. */
  lemma {:induction false} FailUntil(s0: State, s: State, id: nat, n: nat) returns (s': State)
    requires Inv(s0) && Leads(s0, s) && id in s.db.rows && s.db.rows[id].topic == TOPIC_MESSAGE_NEW
    requires s.db.rows[id].status == Pending && s.db.rows[id].retry <= n < MAX_RETRY
    ensures Leads(s0, s') && id in s'.db.rows && s'.db.rows[id].status == Pending && s'.db.rows[id].retry == n
    ensures s'.db.rows[id].topic == TOPIC_MESSAGE_NEW && s'.db.rows[id].msg == s.db.rows[id].msg
    decreases n - s.db.rows[id].retry
  {
    if s.db.rows[id].retry == n {
      s' := s;
    } else {
      var m := PollRow(s0, s, id);
      m := FailJob(s0, m, s.nextJob);
      s' := FailUntil(s0, m, id, n);
    }
  }

  /** It does happen: the last attempt is announced and recorded, and only the worker's commit
      reports an error; the delivered row becomes a dead letter. */
  lemma SentRowDeadLettered() returns (s: State, s': State, id: nat)
    ensures Reachable(s) && id in s.db.rows && s.db.rows[id].status == Sent
    ensures s.db.rows[id].msg in Announced(s.bus.history)
    ensures Leads(s, s') && id in s'.db.rows && s'.db.rows[id].status == Dead
  {
    var s0 := FirstMessage();
    ReachableInv(s0);
    LeadsSelf(s0);
    id := 1;
    var m := FailUntil(s0, s0, id, MAX_RETRY - 1);
    var t := m.nextJob;
    m := PollRow(s0, m, id);
    var e;
    m, e := AnnounceJob(s0, m, t);
    s := RecordJob(s0, m, t);
    assert e in s.bus.history;
    ReachableLeads(s0, s);
    LeadsSelf(s);
    s' := LastTryKills(s, s, id, t);
  }
}
