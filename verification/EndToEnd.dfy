/** From the committed message to the reconnecting member: who is addressed, who gets the
    event, and that an undelivered message can still be delivered. */
module EndToEnd {
  import opened Outbox
  import opened Chat
  import opened Delivery
  import opened DeliveryRuns
  import opened Continuations
  import opened Repeats

  ghost function Members(db: Db, m: nat): seq<nat>
    requires m in db.messages && db.messages[m].room in db.rooms
  {
    db.rooms[db.messages[m].room].members
  }

  /** The event is not about a message, or addresses exactly the members of the message's room. */
  ghost predicate Addressed(db: Db, e: EL.Event) {
    e.kind == TOPIC_MESSAGE_NEW ==>
      (e.data in db.messages && db.messages[e.data].room in db.rooms && e.to == Members(db, e.data))
  }

  /** The audience a dispatch has looked up is the membership of its message's room. */
  ghost predicate Briefed(db: Db, k: Job) {
    k.msg in db.messages && db.messages[k.msg].room in db.rooms &&
    (k.pc.Draw? ==> k.pc.to == Members(db, k.msg)) &&
    (k.pc.Push? ==> k.pc.dest == Members(db, k.msg))
  }

  ghost predicate AllBriefed(db: Db, jobs: map<nat, Job>) {
    forall t :: t in jobs ==> Briefed(db, jobs[t])
  }

  ghost predicate AllAddressed(db: Db, history: seq<EL.Event>) {
    forall i :: 0 <= i < |history| ==> Addressed(db, history[i])
  }

  ghost predicate AudienceOk(s: State) {
    AllAddressed(s.db, s.bus.history) && AllBriefed(s.db, s.jobs)
  }

  /** What may change in the database without touching any audience. */
  ghost predicate SameAudience(db: Db, db': Db) {
    (forall m :: m in db.messages ==> m in db'.messages && db'.messages[m] == db.messages[m]) &&
    (forall r :: r in db.rooms ==> r in db'.rooms && db'.rooms[r].members == db.rooms[r].members)
  }

  lemma AudienceKept(s: State, s': State)
    requires AudienceOk(s) && SameAudience(s.db, s'.db) && s'.bus.history == s.bus.history
    requires forall t :: t in s'.jobs ==> t in s.jobs && s'.jobs[t].msg == s.jobs[t].msg
    requires forall t :: t in s'.jobs ==>
               s'.jobs[t].pc == s.jobs[t].pc || !(s'.jobs[t].pc.Draw? || s'.jobs[t].pc.Push?)
    ensures AudienceOk(s')
  {
  }

  /** The dispatch steps that neither look up an audience nor use one. */
  lemma QuietJobStep(s: State, t: nat)
    requires t in s.jobs && !(s.jobs[t].pc.Lookup? || s.jobs[t].pc.Draw? || s.jobs[t].pc.Push?)
    ensures var s' := StepJob(s, t);
            s'.db.messages == s.db.messages && s'.db.rooms == s.db.rooms && s'.bus.history == s.bus.history &&
            (forall u :: u in s'.jobs ==> u in s.jobs && s'.jobs[u].msg == s.jobs[u].msg) &&
            (forall u :: u in s'.jobs ==>
              s'.jobs[u].pc == s.jobs[u].pc || !(s'.jobs[u].pc.Draw? || s'.jobs[u].pc.Push?))
  {
    match s.jobs[t].pc {
      case Drop =>
      case Trim =>
      case Mark =>
      case Recheck =>
      case Written =>
      case Failed =>
    }
  }

  lemma LookupKeepsAudience(s: State, t: nat)
    requires AudienceOk(s) && t in s.jobs && s.jobs[t].pc == Lookup
    ensures AudienceOk(StepJob(s, t))
  {
  }

  lemma DrawKeepsAudience(s: State, t: nat, to: seq<nat>)
    requires AudienceOk(s) && t in s.jobs && s.jobs[t].pc == Draw(to)
    ensures AudienceOk(StepJob(s, t))
  {
  }

  lemma PushKeepsAudience(s: State, t: nat, q: int, to: seq<nat>)
    requires AudienceOk(s) && t in s.jobs && s.jobs[t].pc == Push(q, to)
    ensures AudienceOk(StepJob(s, t))
  {
  }

  lemma AdvanceKeepsAudience(s: State, t: nat)
    requires AudienceOk(s) && t in s.jobs
    ensures AudienceOk(StepJob(s, t))
  {
    match s.jobs[t].pc {
      case Lookup => LookupKeepsAudience(s, t);
      case Draw(to) => DrawKeepsAudience(s, t, to);
      case Push(q, to) => PushKeepsAudience(s, t, q, to);
      case _ =>
        QuietJobStep(s, t);
        AudienceKept(s, StepJob(s, t));
    }
  }

  lemma SendKeepsAudience(s: State, m: Message)
    requires Inv(s) && AudienceOk(s) && m.room in s.db.rooms
    ensures AudienceOk(Apply(s, Send(m)))
  {
    var s' := Apply(s, Send(m));
    assert SameAudience(s.db, s'.db);
    forall i | 0 <= i < |s'.bus.history| ensures Addressed(s'.db, s'.bus.history[i]) {
      assert Addressed(s.db, s.bus.history[i]);
    }
    forall t | t in s'.jobs ensures Briefed(s'.db, s'.jobs[t]) {
      assert t != s.nextJob ==> Briefed(s.db, s.jobs[t]);
    }
  }

  lemma PollKeepsAudience(s: State, row: nat)
    requires Inv(s) && AudienceOk(s) && Enabled(s, Poll(row))
    ensures AudienceOk(Apply(s, Poll(row)))
  {
  }

  lemma OtherKeepsAudience(s: State, b: EL.BusAct)
    requires AudienceOk(s) && Enabled(s, Other(b))
    ensures AudienceOk(Apply(s, Other(b)))
  {
  }

  lemma QuietKeepsAudience(s: State, a: Act)
    requires AudienceOk(s) && Enabled(s, a)
    requires a.Foreign? || a.DropUnknown? || a.Fail? || a.Crash? || a.Cleanup? || a.Tick?
    ensures AudienceOk(Apply(s, a))
  {
  }

  lemma StepKeepsAudience(s: State, a: Act)
    requires Inv(s) && AudienceOk(s) && Enabled(s, a)
    ensures AudienceOk(Apply(s, a))
  {
    match a {
      case Send(m) => SendKeepsAudience(s, m);
      case Poll(row) => PollKeepsAudience(s, row);
      case Advance(t) => AdvanceKeepsAudience(s, t);
      case Other(b) => OtherKeepsAudience(s, b);
      case _ => QuietKeepsAudience(s, a);
    }
  }

  lemma {:induction false} RunKeepsAudience(s: State, acts: seq<Act>, s': State)
    requires Inv(s) && AudienceOk(s) && Run(s, acts, s')
    ensures AudienceOk(s')
    decreases |acts|
  {
    if acts != [] {
      StepKeepsInv(s, acts[0]);
      StepKeepsAudience(s, acts[0]);
      RunKeepsAudience(Apply(s, acts[0]), acts[1..], s');
    }
  }

  /** In every reachable state each message event addresses exactly the members of the
      message's room. */
  lemma EventsAddressMembers(s: State, i: nat)
    requires Reachable(s) && i < |s.bus.history|
    ensures Addressed(s.db, s.bus.history[i])
  {
    var s0, acts :| Init(s0) && Run(s0, acts, s);
    assert Announced(s0.bus.history) == {};
    RunKeepsAudience(s0, acts, s);
  }

  /** In an ordered list with unique numbers the event at `k` reaches exactly its audience. */
  lemma EventReachesAudience(raw: seq<EL.Event>, user: nat, last: int, k: nat)
    requires EL.InOrder(raw) && k < |raw| && raw[k].seqNo > last
    requires forall x, y :: 0 <= x < y < |raw| ==> raw[x].seqNo != raw[y].seqNo
    ensures user in raw[k].to <==> EL.Strip(raw[k]) in EL.Replayed(raw, user, last)
  {
    EL.InOrderReplays(raw, user, last);
    if user in raw[k].to {
      EL.WantedContains(raw, user, last, k);
    }
    if EL.Strip(raw[k]) in EL.Replayed(raw, user, last) {
      var j :| 0 <= j < |EL.Replayed(raw, user, last)| && EL.Replayed(raw, user, last)[j] == EL.Strip(raw[k]);
      var x := EL.ReplayedFrom(raw, user, last, j);
      assert raw[x].seqNo == raw[k].seqNo;
    }
  }

  /** The kept list of a reachable state: every message event addresses the members of its room,
      and no number occurs twice. */
  lemma KeptList(s: State, k: nat)
    requires Reachable(s) && k < |EL.Newest(s.bus.log)|
    ensures Addressed(s.db, EL.Newest(s.bus.log)[k])
    ensures var raw := EL.Newest(s.bus.log);
            forall x, y :: 0 <= x < y < |raw| ==> raw[x].seqNo != raw[y].seqNo
  {
    ReachableInv(s);
    KeptUnique(s.bus, k);
    EventsAddressMembers(s, |s.bus.history| - 1 - k);
  }

  lemma KeptUnique(b: EL.Bus, k: nat)
    requires EL.BusOk(b) && k < |EL.Newest(b.log)|
    ensures k < |b.history| && EL.Newest(b.log)[k] == b.history[|b.history| - 1 - k]
    ensures var raw := EL.Newest(b.log);
            forall x, y :: 0 <= x < y < |raw| ==> raw[x].seqNo != raw[y].seqNo
  {
  }

  /** While the list is in order, a reconnecting client gets the event of a message it has not
      seen, as long as the event is in the kept list, if and only if the client is a member of
      the message's room. */
  lemma MembersGetMessages(s: State, k: nat, user: nat, last: int)
    requires Reachable(s) && EL.InOrder(EL.Newest(s.bus.log)) && k < |EL.Newest(s.bus.log)|
    requires var e := EL.Newest(s.bus.log)[k]; e.kind == TOPIC_MESSAGE_NEW && e.seqNo > last
    ensures var e := EL.Newest(s.bus.log)[k];
            e.data in s.db.messages && s.db.messages[e.data].room in s.db.rooms &&
            (user in Members(s.db, e.data) <==> EL.Strip(e) in EL.Replayed(EL.Newest(s.bus.log), user, last))
  {
    KeptList(s, k);
    EventReachesAudience(EL.Newest(s.bus.log), user, last, k);
  }

  // ----- an undelivered message can still be delivered

  /** From every reachable state a message whose row is pending can still be announced. */
  lemma PendingCanBeAnnounced(s: State, m: nat) returns (s': State)
    requires Reachable(s) && m in s.db.messages && m in s.rowOf && s.rowOf[m] in s.db.rows
    requires s.db.rows[s.rowOf[m]].status == Pending
    ensures Leads(s, s') && m in Announced(s'.bus.history)
  {
    ReachableInv(s);
    LeadsSelf(s);
    PendingRow(s, m);
    s' := PendingAppends(s, s, s.rowOf[m]);
    TimesAnnounced(s'.bus.history, m);
  }
}
