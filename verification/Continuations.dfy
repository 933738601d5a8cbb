/** How a run can go on from a given state: polls, failures and deliveries of one attempt. */
module Continuations {
  import opened Basics
  import opened Outbox
  import opened Chat
  import opened Delivery
  import opened DeliveryRuns

  ghost predicate Leads(s: State, s': State) {
    exists acts :: Run(s, acts, s')
  }

  lemma LeadsSelf(s: State)
    ensures Leads(s, s)
  {
    assert Run(s, [], s);
  }

  lemma {:induction false} RunConcat(s: State, a: seq<Act>, m: State, b: seq<Act>, t: State)
    requires Run(s, a, m) && Run(m, b, t)
    ensures Run(s, a + b, t)
    decreases |a|
  {
    if a == [] {
      assert a + b == b;
    } else {
      assert (a + b)[1..] == a[1..] + b;
      RunConcat(Apply(s, a[0]), a[1..], m, b, t);
    }
  }

  lemma LeadsTo(s: State, m: State, t: State)
    requires Leads(s, m) && Leads(m, t)
    ensures Leads(s, t)
  {
    var a :| Run(s, a, m);
    var b :| Run(m, b, t);
    RunConcat(s, a, m, b, t);
  }

  lemma ReachableLeads(s: State, s': State)
    requires Reachable(s) && Leads(s, s')
    ensures Reachable(s')
  {
    var s0, a :| Init(s0) && Run(s0, a, s);
    var b :| Run(s, b, s');
    RunConcat(s0, a, s, b, s');
  }

  lemma LeadsInv(s: State, s': State)
    requires Inv(s) && Leads(s, s')
    ensures Inv(s')
  {
    var acts :| Run(s, acts, s');
    RunKeepsInv(s, acts, s');
  }

  /** One more step. */
  lemma Step(s0: State, s: State, a: Act)
    requires Leads(s0, s) && Enabled(s, a)
    ensures Leads(s0, Apply(s, a))
  {
    assert [a][1..] == [] && Run(s, [a], Apply(s, a));
    LeadsTo(s0, s, Apply(s, a));
  }

  lemma StepOne(s0: State, s: State, t: nat)
    requires Leads(s0, s) && t in s.jobs
    ensures Leads(s0, StepJob(s, t))
  {
    Step(s0, s, Advance(t));
  }

  lemma FailOne(s0: State, s: State, t: nat)
    requires Leads(s0, s) && t in s.jobs
    ensures Leads(s0, AfterFail(s, t))
  {
    Step(s0, s, Fail(t));
  }

  lemma TickOne(s0: State, s: State, later: real)
    requires Leads(s0, s) && s.now <= later
    ensures Leads(s0, s.(now := later))
  {
    Step(s0, s, Tick(later));
  }

  lemma PollOne(s0: State, s: State, id: nat)
    requires Inv(s0) && Leads(s0, s) && id in s.db.rows
    requires s.db.rows[id].topic == TOPIC_MESSAGE_NEW && IsDue(s.db.rows[id], s.now)
    ensures Leads(s0, AfterPoll(s, id)) && s.nextJob !in s.jobs
  {
    LeadsInv(s0, s);
    Step(s0, s, Poll(id));
  }

  /** A worker waits until a pending row is due and takes it. */
  lemma PollRow(s0: State, s: State, id: nat) returns (s': State)
    requires Inv(s0) && Leads(s0, s) && id in s.db.rows
    requires s.db.rows[id].topic == TOPIC_MESSAGE_NEW && s.db.rows[id].status == Pending
    ensures Leads(s0, s') && s'.db == s.db && s'.bus == s.bus && s'.rowOf == s.rowOf
    ensures s.nextJob !in s.jobs
    ensures s'.jobs == s.jobs[s.nextJob := Job(ByWorker(s.db.rows[id].retry), id, s.db.rows[id].msg, Lookup)]
  {
    var r := s.db.rows[id];
    var due := if r.next.At? && r.next.time > s.now then r.next.time else s.now;
    TickOne(s0, s, due);
    PollOne(s0, s.(now := due), id);
    s' := AfterPoll(s.(now := due), id);
  }

  /** The table after the failure of a worker's attempt has been written. */
  function RowsAfterFailure(rows: Rows, k: Job, now: real): Rows {
    RowsAfter(rows, k.(pc := Failed), now)
  }

  /** A worker's attempt raises, wherever it stands, and its result is written. */
  lemma FailJob(s0: State, s: State, t: nat) returns (s': State)
    requires Leads(s0, s) && t in s.jobs && s.jobs[t].owner.ByWorker?
    ensures Leads(s0, s') && s'.jobs == s.jobs - {t} && s'.bus == s.bus && s'.rowOf == s.rowOf
    ensures s'.db.rows == RowsAfterFailure(s.db.rows, s.jobs[t], s.now)
  {
    FailOne(s0, s, t);
    StepOne(s0, Goto(s, t, Failed), t);
    s' := StepJob(Goto(s, t, Failed), t);
    FailureWritten(s, t);
  }

  lemma FailureWritten(s: State, t: nat)
    requires t in s.jobs
    ensures var s' := StepJob(Goto(s, t, Failed), t);
            s'.jobs == s.jobs - {t} && s'.bus == s.bus && s'.rowOf == s.rowOf &&
            s'.db.rows == RowsAfterFailure(s.db.rows, s.jobs[t], s.now)
  {
  }

  /** A dispatch that has not pushed its event yet. */
  predicate BeforePush(pc: Pc) {
    pc.Lookup? || pc.Draw? || pc.Push?
  }

  /** One step of such a dispatch: it pushes its event or comes closer to that. */
  lemma StepBeforePush(s: State, t: nat)
    requires Inv(s) && t in s.jobs && BeforePush(s.jobs[t].pc)
    ensures var k, s' := s.jobs[t], StepJob(s, t);
            s'.db == s.db && s'.rowOf == s.rowOf && s'.jobs == s.jobs[t := k.(pc := s'.jobs[t].pc)] &&
            match k.pc
            case Push(q, to) =>
              s'.jobs[t].pc == Trim &&
              s'.bus.history == s.bus.history + [EL.Event(TOPIC_MESSAGE_NEW, q, k.msg, to)]
            case Draw(_) => s'.jobs[t].pc.Push? && s'.bus.history == s.bus.history
            case _ => s'.jobs[t].pc.Draw? && s'.bus.history == s.bus.history
  {
    if s.jobs[t].pc.Lookup? {
      LookupFinds(s, t);
    }
  }

  lemma OneStepToPush(s0: State, s: State, t: nat) returns (s': State)
    requires Inv(s0) && Leads(s0, s) && t in s.jobs && (s.jobs[t].pc.Lookup? || s.jobs[t].pc.Draw?)
    ensures Leads(s0, s') && s'.db == s.db && s'.rowOf == s.rowOf && s'.bus.history == s.bus.history
    ensures t in s'.jobs && s'.jobs == s.jobs[t := s.jobs[t].(pc := s'.jobs[t].pc)]
    ensures if s.jobs[t].pc.Lookup? then s'.jobs[t].pc.Draw? else s'.jobs[t].pc.Push?
  {
    LeadsInv(s0, s);
    StepOne(s0, s, t);
    StepBeforePush(s, t);
    s' := StepJob(s, t);
  }

  lemma PushNow(s0: State, s: State, t: nat) returns (s': State, e: EL.Event)
    requires Inv(s0) && Leads(s0, s) && t in s.jobs && s.jobs[t].pc.Push?
    ensures Leads(s0, s') && s'.db == s.db && s'.rowOf == s.rowOf
    ensures s'.jobs == s.jobs[t := s.jobs[t].(pc := Trim)]
    ensures s'.bus.history == s.bus.history + [e] && e.kind == TOPIC_MESSAGE_NEW && e.data == s.jobs[t].msg
  {
    LeadsInv(s0, s);
    StepOne(s0, s, t);
    StepBeforePush(s, t);
    s' := StepJob(s, t);
    e := EL.Event(TOPIC_MESSAGE_NEW, s.jobs[t].pc.seqNo, s.jobs[t].msg, s.jobs[t].pc.dest);
  }

  /** Such a dispatch can go on up to its push. */
  lemma AnnounceJob(s0: State, s: State, t: nat) returns (s': State, e: EL.Event)
    requires Inv(s0) && Leads(s0, s) && t in s.jobs && BeforePush(s.jobs[t].pc)
    ensures Leads(s0, s') && s'.db == s.db && s'.rowOf == s.rowOf
    ensures s'.jobs == s.jobs[t := s.jobs[t].(pc := Trim)]
    ensures s'.bus.history == s.bus.history + [e] && e.kind == TOPIC_MESSAGE_NEW && e.data == s.jobs[t].msg
    decreases if s.jobs[t].pc.Lookup? then 2 else if s.jobs[t].pc.Draw? then 1 else 0
  {
    if s.jobs[t].pc.Push? {
      s', e := PushNow(s0, s, t);
    } else {
      s' := OneStepToPush(s0, s, t);
      s', e := AnnounceJob(s0, s', t);
    }
  }

  lemma LookupFinds(s: State, t: nat)
    requires Inv(s) && t in s.jobs && s.jobs[t].pc == Lookup
    ensures s.jobs[t].msg in s.db.messages && s.db.messages[s.jobs[t].msg].room in s.db.rooms
  {
    assert JobOk(s.jobs[t], s.rowOf, Announced(s.bus.history), s.bus.taken);
  }

  /** The steps of a worker after the push: trim, the dispatcher's mark and its own. */
  lemma StepAfterPush(s: State, t: nat)
    requires t in s.jobs && s.jobs[t].owner.ByWorker?
    requires s.jobs[t].pc.Trim? || s.jobs[t].pc.Mark? || s.jobs[t].pc.Recheck?
    ensures var k, s' := s.jobs[t], StepJob(s, t);
            s'.jobs == s.jobs[t := k.(pc := s'.jobs[t].pc)] && s'.bus.history == s.bus.history &&
            s'.db.rows == (if k.pc.Trim? then s.db.rows else MarkSent(s.db.rows, k.row)) &&
            s'.jobs[t].pc == if k.pc.Trim? then Mark else if k.pc.Mark? then Recheck else Written
  {
  }

  lemma OneStepAfterPush(s0: State, s: State, t: nat) returns (s': State)
    requires Leads(s0, s) && t in s.jobs && s.jobs[t].owner.ByWorker?
    requires s.jobs[t].pc.Trim? || s.jobs[t].pc.Mark? || s.jobs[t].pc.Recheck?
    ensures Leads(s0, s') && s'.bus.history == s.bus.history
    ensures s'.db.rows == if s.jobs[t].pc.Trim? then s.db.rows else MarkSent(s.db.rows, s.jobs[t].row)
    ensures s'.jobs == s.jobs[t := s.jobs[t].(pc :=
              if s.jobs[t].pc.Trim? then Mark else if s.jobs[t].pc.Mark? then Recheck else Written)]
  {
    StepOne(s0, s, t);
    StepAfterPush(s, t);
    s' := StepJob(s, t);
  }

  /** A worker's attempt goes on until its commit has taken effect. */
  lemma RecordJob(s0: State, s: State, t: nat) returns (s': State)
    requires Leads(s0, s) && t in s.jobs && s.jobs[t].owner.ByWorker? && s.jobs[t].pc == Trim
    ensures Leads(s0, s') && s'.db.rows == MarkSent(s.db.rows, s.jobs[t].row)
    ensures s'.bus.history == s.bus.history && s'.jobs == s.jobs[t := s.jobs[t].(pc := Written)]
  {
    s' := OneStepAfterPush(s0, s, t);
    s' := OneStepAfterPush(s0, s', t);
    s' := OneStepAfterPush(s0, s', t);
  }

  /** A first message, just committed. */
  lemma FirstMessage() returns (s: State)
    ensures Reachable(s) && s.db.messages.Keys == {1} && s.rowOf == map[1 := 1] && s.bus == EL.EMPTY_BUS
    ensures s.db.rows == map[1 := NewRow(TOPIC_MESSAGE_NEW, 1, 0.0)]
  {
    var s0 := State(Db(map[], map[], map[1 := Room([7], 0)], 1, 1), EL.EMPTY_BUS, map[], 1, 0.0, map[]);
    assert Init(s0) && Run(s0, [], s0);
    LeadsSelf(s0);
    assert Reachable(s0);
        var m := Message(1, 7, 1, None, true);
    Step(s0, s0, Send(m));
    s := AfterSend(s0, m);
    ReachableLeads(s0, s);
  }
}
