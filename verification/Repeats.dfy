/** How often a message is announced: at least once is all the protocol aims at, and a message
    can be appended again exactly while its row is pending or a dispatch has not pushed yet. */
module Repeats {
  import opened Outbox
  import opened Delivery
  import opened DeliveryRuns
  import opened Continuations

  /** The number of events of a history that announce message `m`. */
  ghost function Times(history: seq<EL.Event>, m: nat): nat {
    if history == [] then 0
    else
      var e := history[|history| - 1];
      Times(history[..|history| - 1], m) + if e.kind == TOPIC_MESSAGE_NEW && e.data == m then 1 else 0
  }

  lemma TimesSnoc(history: seq<EL.Event>, e: EL.Event, m: nat)
    ensures Times(history + [e], m) ==
              Times(history, m) + if e.kind == TOPIC_MESSAGE_NEW && e.data == m then 1 else 0
  {
    assert (history + [e])[..|history|] == history;
  }

  lemma {:induction false} TimesAnnounced(history: seq<EL.Event>, m: nat)
    ensures Times(history, m) > 0 <==> m in Announced(history)
  {
    if history != [] {
      var init, e := history[..|history| - 1], history[|history| - 1];
      TimesAnnounced(init, m);
      assert history == init + [e];
      AnnouncedGrows(init, e);
    }
  }

  /** Only the push of a dispatch of this message appends it, and by one event. */
  lemma AppendedExactly(s: State, a: Act, m: nat)
    requires Inv(s) && Enabled(s, a)
    ensures Times(Apply(s, a).bus.history, m) ==
              Times(s.bus.history, m) +
              if a.Advance? && s.jobs[a.job].pc.Push? && s.jobs[a.job].msg == m then 1 else 0
  {
    match a {
      case Advance(t) => PushAppends(s, t, m);
      case Other(b) =>
        if b.Push? {
          TimesSnoc(s.bus.history, b.event, m);
        }
      case _ =>
    }
  }

  lemma PushAppends(s: State, t: nat, m: nat)
    requires t in s.jobs
    ensures Times(StepJob(s, t).bus.history, m) ==
              Times(s.bus.history, m) + if s.jobs[t].pc.Push? && s.jobs[t].msg == m then 1 else 0
  {
    var k := s.jobs[t];
    if k.pc.Push? {
      TimesSnoc(s.bus.history, EL.Event(TOPIC_MESSAGE_NEW, k.pc.seqNo, k.msg, k.pc.dest), m);
    } else {
      OnlyPushAppends(s, t);
    }
  }

  lemma OnlyPushAppends(s: State, t: nat)
    requires t in s.jobs && !s.jobs[t].pc.Push?
    ensures StepJob(s, t).bus.history == s.bus.history
  {
  }

  ghost predicate RowPending(rows: Rows, rowOf: map<nat, nat>, m: nat) {
    m in rowOf && rowOf[m] in rows && rows[rowOf[m]].status == Pending
  }

  /** A dispatch of the message that has not pushed. */
  ghost predicate Announcing(k: Job, m: nat) {
    k.msg == m && BeforePush(k.pc)
  }

  ghost predicate SomeAnnouncing(jobs: map<nat, Job>, m: nat) {
    exists t :: t in jobs && Announcing(jobs[t], m)
  }

  ghost predicate CanAppend(s: State, m: nat) {
    RowPending(s.db.rows, s.rowOf, m) || SomeAnnouncing(s.jobs, m)
  }

  lemma KnownMessage(s: State, m: nat)
    requires Inv(s) && m in s.db.messages
    ensures m < s.db.nextMsg && m in s.rowOf && s.rowOf[m] < s.db.nextRow
  {
  }

  lemma RowOfKept(s: State, a: Act, m: nat)
    requires Enabled(s, a) && m in s.db.messages && m < s.db.nextMsg && m in s.rowOf
    ensures m in Apply(s, a).db.messages && m in Apply(s, a).rowOf && Apply(s, a).rowOf[m] == s.rowOf[m]
  {
    if a.Advance? {
      StepJobKeeps(s, a.job);
    }
  }

  /** A row that is not pending, or gone, does not become pending. */
  lemma NotPendingStep(s: State, a: Act, m: nat)
    requires Inv(s) && Enabled(s, a) && m in s.db.messages && !RowPending(s.db.rows, s.rowOf, m)
    ensures !RowPending(Apply(s, a).db.rows, Apply(s, a).rowOf, m)
  {
    KnownMessage(s, m);
    RowOfKept(s, a, m);
    var id := s.rowOf[m];
    if id in Apply(s, a).db.rows {
      if id in s.db.rows {
        RowsMoveForward(s, a);
      } else {
        NewRowId(s, a, id);
      }
    }
  }

  /** No dispatch goes back to before its push. */
  lemma StillAnnouncing(s: State, t: nat, u: nat)
    requires t in s.jobs && u in StepJob(s, t).jobs && BeforePush(StepJob(s, t).jobs[u].pc)
    ensures u in s.jobs && BeforePush(s.jobs[u].pc) && s.jobs[u].msg == StepJob(s, t).jobs[u].msg
  {
    StepJobJobs(s, t);
  }

  lemma PolledIsOther(s: State, row: nat, m: nat)
    requires Inv(s) && Enabled(s, Poll(row)) && !RowPending(s.db.rows, s.rowOf, m)
    ensures s.db.rows[row].msg != m
  {
  }

  lemma QuietJobs(s: State, a: Act, m: nat)
    requires Enabled(s, a) && !a.Advance? && m < s.db.nextMsg && !SomeAnnouncing(s.jobs, m)
    requires a.Poll? ==> s.db.rows[a.row].msg != m
    ensures !SomeAnnouncing(Apply(s, a).jobs, m)
  {
    var s' := Apply(s, a);
    forall u | u in s'.jobs ensures !Announcing(s'.jobs[u], m) {
      assert u in s.jobs ==> !Announcing(s.jobs[u], m);
    }
  }

  lemma NoneAnnouncingStep(s: State, a: Act, m: nat)
    requires Inv(s) && Enabled(s, a) && m in s.db.messages && !CanAppend(s, m)
    ensures !SomeAnnouncing(Apply(s, a).jobs, m)
  {
    var s' := Apply(s, a);
    if a.Advance? {
      forall u | u in s'.jobs ensures !Announcing(s'.jobs[u], m) {
        if BeforePush(s'.jobs[u].pc) {
          StillAnnouncing(s, a.job, u);
          assert !Announcing(s.jobs[u], m);
        }
      }
    } else {
      KnownMessage(s, m);
      if a.Poll? {
        PolledIsOther(s, a.row, m);
      }
      QuietJobs(s, a, m);
    }
  }

  lemma {:induction false} NeverAppended(s: State, acts: seq<Act>, s': State, m: nat)
    requires Inv(s) && Run(s, acts, s') && m in s.db.messages && !CanAppend(s, m)
    ensures Times(s'.bus.history, m) == Times(s.bus.history, m)
    decreases |acts|
  {
    if acts != [] {
      var a := acts[0];
      StepKeepsInv(s, a);
      KnownMessage(s, m);
      RowOfKept(s, a, m);
      NotPendingStep(s, a, m);
      NoneAnnouncingStep(s, a, m);
      AppendedExactly(s, a, m);
      assert a.Advance? ==> !Announcing(s.jobs[a.job], m);
      NeverAppended(Apply(s, a), acts[1..], s', m);
    }
  }

  /** A dispatch before its push appends the message once more; no row changes. */
  lemma AppendOnce(s0: State, s: State, t: nat) returns (s': State)
    requires Inv(s0) && Leads(s0, s) && t in s.jobs && BeforePush(s.jobs[t].pc)
    ensures Leads(s0, s') && s'.db == s.db && s'.rowOf == s.rowOf && s'.jobs == s.jobs[t := s.jobs[t].(pc := Trim)]
    ensures Times(s'.bus.history, s.jobs[t].msg) == Times(s.bus.history, s.jobs[t].msg) + 1
  {
    var e;
    s', e := AnnounceJob(s0, s, t);
    TimesSnoc(s.bus.history, e, s.jobs[t].msg);
  }

  /** While its row is pending a message can be appended once more by a worker that crashes
      between its push and its mark: nothing else is different afterwards. */
  lemma PendingAppends(s0: State, s: State, id: nat) returns (s': State)
    requires Inv(s0) && Leads(s0, s) && id in s.db.rows
    requires s.db.rows[id].topic == TOPIC_MESSAGE_NEW && s.db.rows[id].status == Pending
    ensures Leads(s0, s') && s'.db == s.db && s'.rowOf == s.rowOf && s'.jobs == s.jobs
    ensures Times(s'.bus.history, s.db.rows[id].msg) == Times(s.bus.history, s.db.rows[id].msg) + 1
  {
    var m := PollRow(s0, s, id);
    m := AppendOnce(s0, m, s.nextJob);
    Step(s0, m, Crash(s.nextJob));
    s' := End(m, s.nextJob);
  }

  lemma PendingRow(s: State, m: nat)
    requires Inv(s) && m in s.db.messages && RowPending(s.db.rows, s.rowOf, m)
    ensures s.db.rows[s.rowOf[m]].topic == TOPIC_MESSAGE_NEW && s.db.rows[s.rowOf[m]].msg == m
  {
  }

  /** A committed message can be appended to the log (again) in some continuation if and only if
      its row is pending or one of its dispatches has not pushed yet. */
  lemma AppendableExactly(s: State, m: nat)
    requires Inv(s) && m in s.db.messages
    ensures (exists s' :: Leads(s, s') && Times(s'.bus.history, m) > Times(s.bus.history, m)) <==> CanAppend(s, m)
  {
    LeadsSelf(s);
    if RowPending(s.db.rows, s.rowOf, m) {
      PendingRow(s, m);
      var s' := PendingAppends(s, s, s.rowOf[m]);
    } else if SomeAnnouncing(s.jobs, m) {
      var t :| t in s.jobs && Announcing(s.jobs[t], m);
      var s' := AppendOnce(s, s, t);
    } else {
      forall s' | Leads(s, s') ensures Times(s'.bus.history, m) == Times(s.bus.history, m) {
        var acts :| Run(s, acts, s');
        NeverAppended(s, acts, s', m);
      }
    }
  }

  /** While its row is pending there is no bound on how often a message is appended, even by a
      single worker. */
  lemma {:induction false} AppendedAnyNumberOfTimes(s: State, id: nat, n: nat) returns (s': State)
    requires Inv(s) && id in s.db.rows
    requires s.db.rows[id].topic == TOPIC_MESSAGE_NEW && s.db.rows[id].status == Pending
    ensures Leads(s, s') && s'.db == s.db && s'.jobs == s.jobs
    ensures Times(s'.bus.history, s.db.rows[id].msg) == Times(s.bus.history, s.db.rows[id].msg) + n
  {
    if n == 0 {
      s' := s;
      LeadsSelf(s);
    } else {
      s' := AppendedAnyNumberOfTimes(s, id, n - 1);
      s' := PendingAppends(s, s', id);
    }
  }

  /** Delivery is at least once, not exactly once: one message twice in the log. */
  lemma AppendedTwice() returns (s: State)
    ensures Reachable(s) && Times(s.bus.history, 1) == 2
  {
    var s0 := FirstMessage();
    ReachableInv(s0);
    TimesAnnounced(s0.bus.history, 1);
    s := AppendedAnyNumberOfTimes(s0, 1, 2);
    ReachableLeads(s0, s);
  }
}
