/** What the steps of the delivery protocol do, on the fields themselves: how a send begins, how
    an attempt is marked or fails, what cleanup removes; and that an attempt which is left alone
    announces its message and marks its row. */
module DeliverySteps {
  import opened Outbox
  import opened Chat
  import opened Delivery
  import opened DeliveryRuns
  import opened Continuations

  /** A send commits the message with its own pending row and starts the inline dispatch. */
  lemma SendBegins(s: State, m: Message)
    requires Inv(s) && Enabled(s, Send(m))
    ensures var s' := Apply(s, Send(m));
            s'.db.messages == s.db.messages[s.db.nextMsg := m] && s.db.nextMsg !in s.db.messages &&
            s'.db.rows == s.db.rows[s.db.nextRow := Row("message.new", s.db.nextMsg, Pending, 0, AtOnce, s.now)] &&
            s.db.nextRow !in s.db.rows && m.room in s'.db.rooms && s'.db.rooms[m.room].lastMsg == s.db.nextMsg
    ensures var s' := Apply(s, Send(m));
            s.nextJob !in s.jobs && s.nextJob in s'.jobs &&
            var k := s'.jobs[s.nextJob];
            k.owner == Inline && k.row == s.db.nextRow && k.msg == s.db.nextMsg && k.pc == Lookup
  {
  }

  /** Rows of other topics appear pending as well, under ids not in use. */
  lemma ForeignRowAppears(s: State, topic: string, payload: nat)
    requires Inv(s) && topic != "message.new"
    ensures Enabled(s, Foreign(topic, payload)) && s.db.nextRow !in s.db.rows
    ensures Apply(s, Foreign(topic, payload)).db.rows ==
              s.db.rows[s.db.nextRow := Row(topic, payload, Pending, 0, AtOnce, s.now)]
  {
  }

  /** A worker takes a due row with the count it has at that moment. */
  lemma PollBegins(s: State, id: nat)
    requires id in s.db.rows && s.db.rows[id].topic == "message.new" && s.db.rows[id].status == Pending
    requires s.db.rows[id].next == AtOnce || s.db.rows[id].next.time <= s.now
    ensures Enabled(s, Poll(id))
    ensures var s' := Apply(s, Poll(id));
            s'.db == s.db && s.nextJob in s'.jobs &&
            var k := s'.jobs[s.nextJob];
            k.owner == ByWorker(s.db.rows[id].retry) && k.row == id && k.msg == s.db.rows[id].msg && k.pc == Lookup
  {
  }

  lemma MarkRows(rows: Rows, k: Job, now: real)
    requires k.pc.Mark? || k.pc.Recheck?
    ensures var rows' := RowsAfter(rows, k, now);
            rows'.Keys == rows.Keys && (k.row in rows' ==> rows'[k.row].status == Sent) &&
            forall id :: id in rows && id != k.row ==> rows'[id] == rows[id]
  {
  }

  /** When a dispatch, inline or of a worker, comes to its mark, its row is sent afterwards; no
      other row changes. */
  lemma MarkedIsSent(s: State, t: nat)
    requires t in s.jobs && (s.jobs[t].pc.Mark? || s.jobs[t].pc.Recheck?)
    ensures var rows, rows', id := s.db.rows, Apply(s, Advance(t)).db.rows, s.jobs[t].row;
            rows'.Keys == rows.Keys && (id in rows' ==> rows'[id].status == Sent) &&
            forall k :: k in rows && k != id ==> rows'[k] == rows[k]
  {
    StepJobRows(s, t);
    MarkRows(s.db.rows, s.jobs[t], s.now);
  }

  /** A failure is written with doubling back-off, or makes the row a dead letter; what an inline
      dispatch leaves undone stays pending. */
  lemma FailureIsWritten(s: State, t: nat)
    requires t in s.jobs && s.jobs[t].pc.Failed? && s.jobs[t].row in s.db.rows
    requires s.jobs[t].owner.ByWorker?
    ensures var r, seen := s.db.rows[s.jobs[t].row], s.jobs[t].owner.retrySeen;
            var rows' := Apply(s, Advance(t)).db.rows;
            rows' == s.db.rows[s.jobs[t].row :=
              if seen >= 4 then r.(status := Dead, retry := r.retry + 1, next := AtOnce)
              else if r.status != Pending then r
              else r.(retry := r.retry + 1,
                      next := At(s.now + (if seen == 0 then 1.0 else if seen == 1 then 2.0
                                          else if seen == 2 then 4.0 else 8.0)))]
  {
    StepJobRows(s, t);
    BackoffNumbers(s.jobs[t].owner.retrySeen);
  }

  lemma BackoffNumbers(n: nat)
    ensures n <= 3 ==>
              Worker.Pow2(n) == if n == 0 then 1 else if n == 1 then 2 else if n == 2 then 4 else 8
  {
    Worker.Pow2Doubles(0);
  }

  lemma InlineFailureLeavesRow(s: State, t: nat)
    requires t in s.jobs && s.jobs[t].owner.Inline?
    ensures Apply(s, Fail(t)).db == s.db && t !in Apply(s, Fail(t)).jobs
  {
  }

  lemma CrashLeavesAll(s: State, t: nat)
    requires t in s.jobs
    ensures Apply(s, Crash(t)).db == s.db && Apply(s, Crash(t)).bus == s.bus
    ensures Apply(s, Crash(t)).jobs == s.jobs - {t}
  {
  }

  /** A row of an unknown topic is dropped by marking it sent. */
  lemma UnknownTopicIsDropped(s: State, id: nat)
    requires id in s.db.rows && s.db.rows[id].topic != "message.new"
    ensures Enabled(s, DropUnknown(id))
    ensures Apply(s, DropUnknown(id)).db.rows == s.db.rows[id := s.db.rows[id].(status := Sent, next := AtOnce)]
  {
  }

  /** Cleanup removes exactly the sent rows created more than seven days ago. */
  lemma CleanupExact(s: State, id: nat)
    ensures var rows' := Apply(s, Cleanup).db.rows;
            (id in rows' <==>
              id in s.db.rows && !(s.db.rows[id].status == Sent && s.db.rows[id].created < s.now - 604800.0)) &&
            (id in rows' ==> rows'[id] == s.db.rows[id])
  {
  }

  // ----- an attempt that is left alone

  lemma HistoryGrows(s: State, a: Act)
    requires Enabled(s, a)
    ensures s.bus.history <= Apply(s, a).bus.history
  {
    match a {
      case Advance(t) => JobHistoryGrows(s, t);
      case _ =>
    }
  }

  lemma JobHistoryGrows(s: State, t: nat)
    requires t in s.jobs
    ensures s.bus.history <= StepJob(s, t).bus.history
  {
    match s.jobs[t].pc {
      case Lookup =>
      case Drop =>
      case Draw(to) =>
      case Push(q, to) =>
      case Trim =>
      case Mark =>
      case Recheck =>
      case Written =>
      case Failed =>
    }
  }

  /** The message has been announced and its row is not pending, or no longer there. */
  ghost predicate Settled(s: State, k: Job) {
    (k.row in s.db.rows ==> s.db.rows[k.row].status != Pending) && k.msg in Announced(s.bus.history)
  }

  lemma StaysSettled(s: State, a: Act, k: Job)
    requires Inv(s) && Enabled(s, a) && Settled(s, k) && k.row < s.db.nextRow
    ensures Settled(Apply(s, a), k)
  {
    RowsMoveForward(s, a);
    HistoryGrows(s, a);
    if k.row in Apply(s, a).db.rows && k.row !in s.db.rows {
      NewRowId(s, a, k.row);
    }
  }

  /** The attempt is on its way to its marks, or has settled its message. */
  ghost predicate OnItsWay(s: State, t: nat, k: Job) {
    t < s.nextJob && k.row < s.db.nextRow &&
    if t in s.jobs then
      SameJob(k, s.jobs[t]) && !s.jobs[t].pc.Failed? && (s.jobs[t].pc.Written? ==> Settled(s, k))
    else Settled(s, k)
  }

  lemma OtherJobs(s: State, a: Act, t: nat)
    requires Enabled(s, a) && t < s.nextJob
    requires a != Advance(t) && a != Fail(t) && a != Crash(t)
    ensures t in Apply(s, a).jobs <==> t in s.jobs
    ensures t in s.jobs ==> Apply(s, a).jobs[t] == s.jobs[t]
  {
    if a.Advance? {
      OtherJobsKept(s, a.job, t);
    }
  }

  lemma OtherJobsKept(s: State, u: nat, t: nat)
    requires u in s.jobs && u != t
    ensures t in StepJob(s, u).jobs <==> t in s.jobs
    ensures t in s.jobs ==> StepJob(s, u).jobs[t] == s.jobs[t]
  {
    match s.jobs[u].pc {
      case Lookup =>
      case Drop =>
      case Draw(to) =>
      case Push(q, to) =>
      case Trim =>
      case Mark =>
      case Recheck =>
      case Written =>
      case Failed =>
    }
  }

  lemma JobsGrow(s: State, a: Act)
    requires Enabled(s, a)
    ensures s.nextJob <= Apply(s, a).nextJob
  {
    if a.Advance? {
      StepJobNumber(s, a.job);
    }
  }

  lemma StepJobNumber(s: State, t: nat)
    requires t in s.jobs
    ensures StepJob(s, t).nextJob == s.nextJob
  {
  }

  /** Where one step of its own takes an attempt. */
  lemma OwnStep(s: State, t: nat)
    requires Inv(s) && t in s.jobs && !s.jobs[t].pc.Failed? && !s.jobs[t].pc.Written?
    ensures var k, s' := s.jobs[t], StepJob(s, t);
            if k.pc.Recheck? || (k.pc.Mark? && k.owner.Inline?)
            then Settled(s', k) && (t in s'.jobs ==> SameJob(k, s'.jobs[t]) && s'.jobs[t].pc.Written?)
            else t in s'.jobs && SameJob(k, s'.jobs[t]) && !s'.jobs[t].pc.Failed? && !s'.jobs[t].pc.Written?
  {
    assert JobOk(s.jobs[t], s.rowOf, Announced(s.bus.history), s.bus.taken);
    match s.jobs[t].pc {
      case Lookup =>
      case Draw(to) =>
      case Push(q, to) =>
      case Trim =>
      case Mark =>
      case Recheck =>
      case Drop =>
    }
  }

  lemma OnItsWayStep(s: State, a: Act, t: nat, k: Job)
    requires Inv(s) && Enabled(s, a) && OnItsWay(s, t, k) && a != Fail(t) && a != Crash(t)
    ensures OnItsWay(Apply(s, a), t, k)
  {
    CountersGrow(s, a);
    JobsGrow(s, a);
    if Settled(s, k) {
      StaysSettled(s, a, k);
    }
    if a == Advance(t) {
      if s.jobs[t].pc.Written? {
        WrittenEnds(s, t);
      } else {
        OwnStep(s, t);
      }
    } else {
      OtherJobs(s, a, t);
    }
  }

  lemma WrittenEnds(s: State, t: nat)
    requires t in s.jobs && s.jobs[t].pc.Written?
    ensures t !in StepJob(s, t).jobs
  {
  }

  lemma {:induction false} OnItsWayRun(s: State, acts: seq<Act>, s': State, t: nat, k: Job)
    requires Inv(s) && Run(s, acts, s') && OnItsWay(s, t, k)
    requires forall i :: 0 <= i < |acts| ==> acts[i] != Fail(t) && acts[i] != Crash(t)
    ensures OnItsWay(s', t, k)
    decreases |acts|
  {
    if acts != [] {
      StepKeepsInv(s, acts[0]);
      OnItsWayStep(s, acts[0], t, k);
      OnItsWayRun(Apply(s, acts[0]), acts[1..], s', t, k);
    }
  }

  /** An attempt that has not reached its marks, inline or of a worker, and is gone later without
      having failed or crashed has announced its message and marked its row: the row is never
      pending again, whatever else goes on in between. */
  lemma UndisturbedMarks(s: State, acts: seq<Act>, s': State, t: nat)
    requires Inv(s) && Run(s, acts, s') && t in s.jobs && t !in s'.jobs
    requires !s.jobs[t].pc.Failed? && !s.jobs[t].pc.Written?
    requires forall i :: 0 <= i < |acts| ==> acts[i] != Fail(t) && acts[i] != Crash(t)
    ensures var id := s.jobs[t].row; id in s'.db.rows ==> s'.db.rows[id].status != Pending
    ensures exists k :: 0 <= k < |s'.bus.history| &&
                        s'.bus.history[k].kind == "message.new" && s'.bus.history[k].data == s.jobs[t].msg
  {
    assert JobOk(s.jobs[t], s.rowOf, Announced(s.bus.history), s.bus.taken);
    OnItsWayRun(s, acts, s', t, s.jobs[t]);
  }

  /** The inline dispatch of a send: once it is over, and unless it failed or crashed, the message
      is in the log and its row will not be polled. */
  lemma InlineDispatchMarks(s: State, m: Message, acts: seq<Act>, s': State)
    requires Inv(s) && Enabled(s, Send(m)) && Run(Apply(s, Send(m)), acts, s') && s.nextJob !in s'.jobs
    requires forall i :: 0 <= i < |acts| ==> acts[i] != Fail(s.nextJob) && acts[i] != Crash(s.nextJob)
    ensures s.db.nextRow in s'.db.rows ==> s'.db.rows[s.db.nextRow].status != Pending
    ensures exists k :: 0 <= k < |s'.bus.history| &&
                        s'.bus.history[k].kind == "message.new" && s'.bus.history[k].data == s.db.nextMsg
  {
    SendBegins(s, m);
    StepKeepsInv(s, Send(m));
    UndisturbedMarks(Apply(s, Send(m)), acts, s', s.nextJob);
  }

  lemma InlineAfterPush(s: State, t: nat)
    requires t in s.jobs && s.jobs[t].owner.Inline? && (s.jobs[t].pc.Trim? || s.jobs[t].pc.Mark?)
    ensures var k, s' := s.jobs[t], StepJob(s, t);
            s'.bus.history == s.bus.history &&
            if k.pc.Trim? then s'.db == s.db && s'.jobs == s.jobs[t := k.(pc := Mark)]
            else s'.db.rows == MarkSent(s.db.rows, k.row) && s'.jobs == s.jobs - {t}
  {
  }

  /** It can be over at once: then the message has been announced and its row is sent. */
  lemma InlineCanFinish(s: State, m: Message) returns (s': State)
    requires Inv(s) && Enabled(s, Send(m))
    ensures Leads(Apply(s, Send(m)), s') && s.nextJob !in s'.jobs
    ensures s.db.nextRow in s'.db.rows && s'.db.rows[s.db.nextRow].status == Sent
    ensures s.db.nextMsg in Announced(s'.bus.history)
  {
    var s0, t := Apply(s, Send(m)), s.nextJob;
    SendBegins(s, m);
    StepKeepsInv(s, Send(m));
    LeadsSelf(s0);
    var s1, e := AnnounceJob(s0, s0, t);
    assert e in s1.bus.history;
    StepOne(s0, s1, t);
    InlineAfterPush(s1, t);
    var s2 := StepJob(s1, t);
    StepOne(s0, s2, t);
    InlineAfterPush(s2, t);
    s' := StepJob(s2, t);
  }
}
