/** The bound on retries, in every interleaving with any number of workers: which steps break
    it, and from which states it can still be broken. */
module RetryBound {
  import opened Outbox
  import opened Delivery
  import opened DeliveryRuns
  import opened Continuations

  // ----- the steps that take a count past a limit

  /** The step writes a failure into a row whose count stands at `limit`. With `!last` only
      failures are meant that leave the row pending. */
  ghost predicate Raises(s: State, a: Act, id: nat, limit: nat, last: bool) {
    a.Advance? && a.job in s.jobs && s.jobs[a.job].pc.Failed? &&
    id in s.db.rows && s.db.rows[id].retry == limit &&
    ((EarlierTry(s.jobs[a.job], id) && s.db.rows[id].status == Pending) || (last && LastTry(s.jobs[a.job], id)))
  }

  /** A step leaves a row pending with its attempts used up if and only if it writes the failure
      of an attempt that has read an older, smaller count. */
  lemma OvershootStepExactly(s: State, a: Act, id: nat)
    requires Inv(s) && Enabled(s, a) && id in s.db.rows && id in Apply(s, a).db.rows
    requires s.db.rows[id].status == Pending && s.db.rows[id].retry < MAX_RETRY
    ensures var r' := Apply(s, a).db.rows[id];
            r'.status == Pending && r'.retry >= MAX_RETRY <==>
              a.Advance? && s.jobs[a.job].pc.Failed? && EarlierTry(s.jobs[a.job], id) &&
              s.db.rows[id].retry + 1 == MAX_RETRY
  {
    StepOnRow(s, a, id);
  }

  /** A step takes a count past MAX_RETRY if and only if it writes a failure into a row that has
      reached it, a last attempt or, while the row is pending, any other. */
  lemma PastMaxStepExactly(s: State, a: Act, id: nat)
    requires Inv(s) && Enabled(s, a) && id in s.db.rows && id in Apply(s, a).db.rows
    requires s.db.rows[id].retry <= MAX_RETRY
    ensures Apply(s, a).db.rows[id].retry > MAX_RETRY <==> Raises(s, a, id, MAX_RETRY, true)
  {
    StepOnRow(s, a, id);
  }

  /** Some step of the run raises the count past the limit. */
  ghost predicate RaisedBy(s: State, acts: seq<Act>, id: nat, limit: nat, last: bool)
    decreases |acts|
  {
    acts != [] && Enabled(s, acts[0]) &&
    (Raises(s, acts[0], id, limit, last) || RaisedBy(Apply(s, acts[0]), acts[1..], id, limit, last))
  }

  /** A step that raises the count past the limit leaves it there, and pending rows pending. */
  lemma RaisesStep(s: State, a: Act, id: nat, limit: nat, last: bool)
    requires Inv(s) && Enabled(s, a) && (id in s.db.rows ==> s.db.rows[id].retry <= limit)
    requires id in Apply(s, a).db.rows && (last || Apply(s, a).db.rows[id].status == Pending)
    ensures Apply(s, a).db.rows[id].retry > limit <==> Raises(s, a, id, limit, last)
  {
    if id in s.db.rows {
      StepOnRow(s, a, id);
    } else {
      NewRowId(s, a, id);
    }
  }

  /** Along any run the count of a row ends above a limit if and only if some step of the run
      wrote a failure into the row at that limit; for a row that ends pending these are failures
      of attempts that had read a smaller count. */
  lemma {:induction false} RaisedExactly(s: State, acts: seq<Act>, s': State, id: nat, limit: nat, last: bool)
    requires Inv(s) && Run(s, acts, s') && (id in s.db.rows ==> s.db.rows[id].retry <= limit)
    requires id in s'.db.rows && (last || s'.db.rows[id].status == Pending)
    ensures s'.db.rows[id].retry > limit <==> RaisedBy(s, acts, id, limit, last)
    decreases |acts|
  {
    if acts != [] {
      var a, m := acts[0], Apply(s, acts[0]);
      StepKeepsInv(s, a);
      if id in m.db.rows {
        NeverBackToPending(m, acts[1..], s', id);
        RaisesStep(s, a, id, limit, last);
        if m.db.rows[id].retry <= limit {
          RaisedExactly(m, acts[1..], s', id, limit, last);
        }
      } else {
        RowGone(s, a, acts[1..], s', id);
        RaisedExactly(m, acts[1..], s', id, limit, last);
      }
    }
  }

  /** A row that is there at the end has not been deleted on the way. */
  lemma RowGone(s: State, a: Act, rest: seq<Act>, s': State, id: nat)
    requires Inv(s) && Enabled(s, a) && Run(Apply(s, a), rest, s')
    requires id !in Apply(s, a).db.rows && id in s'.db.rows
    ensures id !in s.db.rows
  {
    if id in s.db.rows {
      CountersGrow(s, a);
      GoneForever(Apply(s, a), rest, s', id);
    }
  }

  // ----- from which states a pending row can use up its attempts

  /** An attempt that has read a count at which its failure leaves the row pending. */
  ghost predicate EarlierTryRuns(jobs: map<nat, Job>, id: nat) {
    exists t :: t in jobs && EarlierTry(jobs[t], id)
  }

  /** Such an attempt, held back while others fail, takes the row to its limit. */
  lemma {:induction false} Overshoot(s0: State, s: State, id: nat, t: nat) returns (s': State)
    requires Inv(s0) && Leads(s0, s) && id in s.db.rows && s.db.rows[id].topic == TOPIC_MESSAGE_NEW
    requires s.db.rows[id].status == Pending && s.db.rows[id].retry < MAX_RETRY
    requires t in s.jobs && EarlierTry(s.jobs[t], id)
    ensures Leads(s0, s') && id in s'.db.rows
    ensures s'.db.rows[id].status == Pending && s'.db.rows[id].retry == MAX_RETRY
    decreases MAX_RETRY - s.db.rows[id].retry
  {
    if s.db.rows[id].retry == MAX_RETRY - 1 {
      s' := FailJob(s0, s, t);
    } else {
      var m := FailFresh(s0, s, id);
      s' := Overshoot(s0, m, id, t);
    }
  }

  /** One more worker takes the row and fails; all other attempts are as before. */
  lemma FailFresh(s0: State, s: State, id: nat) returns (s': State)
    requires Inv(s0) && Leads(s0, s) && id in s.db.rows && s.db.rows[id].topic == TOPIC_MESSAGE_NEW
    requires s.db.rows[id].status == Pending && s.db.rows[id].retry + 1 < MAX_RETRY
    ensures Leads(s0, s') && id in s'.db.rows && s'.db.rows[id].topic == TOPIC_MESSAGE_NEW
    ensures s'.db.rows[id].status == Pending && s'.db.rows[id].retry == s.db.rows[id].retry + 1
    ensures s'.jobs == s.jobs
  {
    s' := PollRow(s0, s, id);
    s' := FailJob(s0, s', s.nextJob);
    assert s'.jobs == s.jobs;
  }

  /** The row cannot be pending with its attempts used up, now or later: it is gone or not
      pending, or has one attempt left and no attempt runs that would leave it pending. */
  ghost predicate Capped(s: State, id: nat) {
    id < s.db.nextRow &&
    (id in s.db.rows && s.db.rows[id].status == Pending ==>
      s.db.rows[id].retry == MAX_RETRY - 1 && !EarlierTryRuns(s.jobs, id))
  }

  lemma CappedStep(s: State, a: Act, id: nat)
    requires Inv(s) && Enabled(s, a) && Capped(s, id)
    ensures Capped(Apply(s, a), id)
  {
    var s' := Apply(s, a);
    CountersGrow(s, a);
    if id in s'.db.rows && s'.db.rows[id].status == Pending {
      if id !in s.db.rows {
        NewRowId(s, a, id);
      }
      RowsMoveForward(s, a);
      StepOnRow(s, a, id);
      forall t | t in s'.jobs ensures !EarlierTry(s'.jobs[t], id) {
        JobOrigin(s, a, t);
      }
    }
  }

  lemma {:induction false} CappedForever(s: State, acts: seq<Act>, s': State, id: nat)
    requires Inv(s) && Run(s, acts, s') && Capped(s, id)
    ensures Capped(s', id)
    decreases |acts|
  {
    if acts != [] {
      StepKeepsInv(s, acts[0]);
      CappedStep(s, acts[0], id);
      CappedForever(Apply(s, acts[0]), acts[1..], s', id);
    }
  }

  /** Without a rule that one row is taken by one worker at a time, a row can end up pending with
      its attempts used up if and only if it is pending and does not stand at the last count but
      one, or an attempt that has read less is still running. */
  lemma OvershootPossibleExactly(s: State, id: nat)
    requires Inv(s) && id in s.db.rows && s.db.rows[id].topic == TOPIC_MESSAGE_NEW
    ensures (exists s' :: Leads(s, s') && id in s'.db.rows && s'.db.rows[id].status == Pending &&
                          s'.db.rows[id].retry >= MAX_RETRY) <==>
              s.db.rows[id].status == Pending &&
              (s.db.rows[id].retry != MAX_RETRY - 1 || EarlierTryRuns(s.jobs, id))
  {
    var r := s.db.rows[id];
    LeadsSelf(s);
    if r.status == Pending && r.retry < MAX_RETRY - 1 {
      var m := PollRow(s, s, id);
      var s' := Overshoot(s, m, id, s.nextJob);
    } else if r.status == Pending && r.retry == MAX_RETRY - 1 && EarlierTryRuns(s.jobs, id) {
      var t :| t in s.jobs && EarlierTry(s.jobs[t], id);
      var s' := Overshoot(s, s, id, t);
    } else if !(r.status == Pending && r.retry >= MAX_RETRY) {
      assert Capped(s, id);
      forall s' | Leads(s, s') ensures Capped(s', id) {
        var acts :| Run(s, acts, s');
        CappedForever(s, acts, s', id);
      }
    }
  }

  // ----- from which states a count can pass MAX_RETRY

  /** The last attempts on a row that are still running. */
  ghost function LastTries(jobs: map<nat, Job>, id: nat): set<nat> {
    set t | t in jobs && LastTry(jobs[t], id)
  }

  /** Each of these can add one to the count, whatever the status of the row. */
  lemma {:induction false} LastTriesRaise(s0: State, s: State, id: nat) returns (s': State)
    requires Leads(s0, s) && id in s.db.rows
    requires s.db.rows[id].retry + |LastTries(s.jobs, id)| > MAX_RETRY
    ensures Leads(s0, s') && id in s'.db.rows && s'.db.rows[id].retry > MAX_RETRY
    decreases |LastTries(s.jobs, id)|
  {
    if s.db.rows[id].retry > MAX_RETRY {
      s' := s;
    } else {
      var t :| t in LastTries(s.jobs, id);
      var m := FailJob(s0, s, t);
      assert LastTries(m.jobs, id) == LastTries(s.jobs, id) - {t};
      s' := LastTriesRaise(s0, m, id);
    }
  }

  /** A pending row can always be taken past the limit: by two workers at the last count. */
  lemma {:induction false} PendingPastMax(s0: State, s: State, id: nat) returns (s': State)
    requires Inv(s0) && Leads(s0, s) && id in s.db.rows
    requires s.db.rows[id].topic == TOPIC_MESSAGE_NEW && s.db.rows[id].status == Pending
    ensures Leads(s0, s') && id in s'.db.rows && s'.db.rows[id].retry > MAX_RETRY
    decreases if s.db.rows[id].retry < MAX_RETRY then MAX_RETRY - s.db.rows[id].retry else 0
  {
    if s.db.rows[id].retry + 1 < MAX_RETRY {
      var m := FailFresh(s0, s, id);
      s' := PendingPastMax(s0, m, id);
    } else {
      var m := PollRow(s0, s, id);
      var m' := PollRow(s0, m, id);
      assert {s.nextJob, m.nextJob} <= LastTries(m'.jobs, id);
      SubsetSmaller({s.nextJob, m.nextJob}, LastTries(m'.jobs, id));
      s' := LastTriesRaise(s0, m', id);
    }
  }

  lemma {:induction false} SubsetSmaller(a: set<nat>, b: set<nat>)
    requires a <= b
    ensures |a| <= |b|
  {
    if a != {} {
      var x :| x in a;
      SubsetSmaller(a - {x}, b - {x});
    }
  }

  /** The row is not pending, and its running last attempts cannot take it past the limit. */
  ghost predicate Spent(s: State, id: nat) {
    id < s.db.nextRow &&
    (id in s.db.rows ==>
      s.db.rows[id].status != Pending && s.db.rows[id].retry + |LastTries(s.jobs, id)| <= MAX_RETRY)
  }

  /** Only a poll of the pending row could add a last attempt. */
  lemma LastTriesShrink(s: State, a: Act, id: nat)
    requires Inv(s) && Enabled(s, a) && id in s.db.rows && s.db.rows[id].status != Pending
    ensures LastTries(Apply(s, a).jobs, id) <= LastTries(s.jobs, id)
    ensures Counts(s, a, id) ==>
              a.job in LastTries(s.jobs, id) && a.job !in LastTries(Apply(s, a).jobs, id)
  {
    forall t | t in LastTries(Apply(s, a).jobs, id) ensures t in LastTries(s.jobs, id) {
      JobOrigin(s, a, t);
    }
    if Counts(s, a, id) {
      StepJobJobs(s, a.job);
    }
  }

  lemma SpentStep(s: State, a: Act, id: nat)
    requires Inv(s) && Enabled(s, a) && Spent(s, id)
    ensures Spent(Apply(s, a), id)
  {
    var s' := Apply(s, a);
    CountersGrow(s, a);
    if id in s'.db.rows {
      if id in s.db.rows {
        StepOnRow(s, a, id);
        LastTriesShrink(s, a, id);
        var before, after := LastTries(s.jobs, id), LastTries(s'.jobs, id);
        SubsetSmaller(after, if Counts(s, a, id) then before - {a.job} else before);
      } else {
        NewRowId(s, a, id);
      }
    }
  }

  lemma {:induction false} SpentForever(s: State, acts: seq<Act>, s': State, id: nat)
    requires Inv(s) && Run(s, acts, s') && Spent(s, id)
    ensures Spent(s', id)
    decreases |acts|
  {
    if acts != [] {
      StepKeepsInv(s, acts[0]);
      SpentStep(s, acts[0], id);
      SpentForever(Apply(s, acts[0]), acts[1..], s', id);
    }
  }

  /** A count can pass MAX_RETRY if and only if the row is pending or the last attempts on it that
      are still running are more than the difference. */
  lemma PastMaxPossibleExactly(s: State, id: nat)
    requires Inv(s) && id in s.db.rows && s.db.rows[id].topic == TOPIC_MESSAGE_NEW
    ensures (exists s' :: Leads(s, s') && id in s'.db.rows && s'.db.rows[id].retry > MAX_RETRY) <==>
              s.db.rows[id].status == Pending || s.db.rows[id].retry + |LastTries(s.jobs, id)| > MAX_RETRY
  {
    LeadsSelf(s);
    if s.db.rows[id].status == Pending {
      var s' := PendingPastMax(s, s, id);
    } else if s.db.rows[id].retry + |LastTries(s.jobs, id)| > MAX_RETRY {
      var s' := LastTriesRaise(s, s, id);
    } else {
      assert Spent(s, id);
      forall s' | Leads(s, s') ensures Spent(s', id) {
        var acts :| Run(s, acts, s');
        SpentForever(s, acts, s', id);
      }
    }
  }

  /** Two workers that read the same count both increment it: a pending row without attempts. */
  lemma TwoWorkersOvershoot() returns (s: State, id: nat)
    ensures Reachable(s) && id in s.db.rows
    ensures s.db.rows[id].status == Pending && s.db.rows[id].retry >= MAX_RETRY
  {
    var s0 := FirstMessage();
    ReachableInv(s0);
    id := 1;
    OvershootPossibleExactly(s0, id);
    s :| Leads(s0, s) && id in s.db.rows && s.db.rows[id].status == Pending && s.db.rows[id].retry >= MAX_RETRY;
    ReachableLeads(s0, s);
  }
}
