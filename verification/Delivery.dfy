/** The delivery protocol as interleaved steps: sends, inline dispatches, any number of
    workers, other emitters on the event log, cleanup, failures and crashes at every point. */
module Delivery {
  import opened Outbox
  import opened Chat
  import Worker
  import EL = EventLog

  /** A dispatch is run inline by the sender or by a worker that read this retry count. */
  datatype Owner = Inline | ByWorker(retrySeen: nat)

  /** Where a dispatch stands: the next action it takes. */
  datatype Pc =
    | Lookup                             // read the message and its room's members
    | Drop                               // message missing: mark the row sent
    | Draw(to: seq<nat>)                 // INCR
    | Push(seqNo: int, dest: seq<nat>)   // LPUSH
    | Trim                               // LTRIM
    | Mark                               // sockets written; the dispatcher's mark_sent
    | Recheck                            // a worker's own mark_sent after the dispatcher
    | Written                            // the worker's commit has taken effect
    | Failed                             // a worker's exception branch

  datatype Job = Job(owner: Owner, row: nat, msg: nat, pc: Pc)

  /** `rowOf` remembers the outbox row created with each message. */
  datatype State = State(db: Db, bus: EL.Bus, jobs: map<nat, Job>, nextJob: nat, now: real,
                         rowOf: map<nat, nat>)

  datatype Act =
    | Send(m: Message)
    | Foreign(topic: string, payload: nat)
    | Poll(row: nat)
    | DropUnknown(row: nat)
    | Advance(job: nat)
    | Fail(job: nat)
    | Crash(job: nat)
    | Other(bus: EL.BusAct)
    | Cleanup
    | Tick(later: real)

  /** The job is about to push under this number. */
  predicate Holds(k: Job, seqNo: int) {
    k.pc.Push? && k.pc.seqNo == seqNo
  }

  ghost predicate Enabled(s: State, a: Act) {
    match a
    case Send(m) => m.room in s.db.rooms
    case Foreign(topic, _) => topic != TOPIC_MESSAGE_NEW
    case Poll(row) => row in s.db.rows && s.db.rows[row].topic == TOPIC_MESSAGE_NEW && IsDue(s.db.rows[row], s.now)
    case DropUnknown(row) => row in s.db.rows && s.db.rows[row].topic != TOPIC_MESSAGE_NEW
    case Advance(t) => t in s.jobs
    case Fail(t) => t in s.jobs
    case Crash(t) => t in s.jobs
    case Other(b) =>
      EL.BusEnabled(s.bus, b) &&
      (b.Push? ==>
        (b.event.kind != TOPIC_MESSAGE_NEW && forall t :: t in s.jobs ==> !Holds(s.jobs[t], b.event.seqNo)))
    case Cleanup => true
    case Tick(later) => s.now <= later
  }

  function Goto(s: State, t: nat, pc: Pc): State
    requires t in s.jobs
  {
    s.(jobs := s.jobs[t := s.jobs[t].(pc := pc)])
  }

  function End(s: State, t: nat): State {
    s.(jobs := s.jobs - {t})
  }

  function WithRows(s: State, rows: Rows): State {
    s.(db := s.db.(rows := rows))
  }

  function AddJob(s: State, job: Job): State {
    s.(jobs := s.jobs[s.nextJob := job], nextJob := s.nextJob + 1)
  }

  /** The dispatcher has returned: an inline dispatch is over, a worker goes on. */
  function Returned(s: State, t: nat): State
    requires t in s.jobs
  {
    if s.jobs[t].owner.Inline? then End(s, t) else Goto(s, t, Recheck)
  }

  function StepJob(s: State, t: nat): State
    requires t in s.jobs
  {
    var k := s.jobs[t];
    match k.pc
    case Lookup =>
      if k.msg in s.db.messages && s.db.messages[k.msg].room in s.db.rooms
      then Goto(s, t, Draw(s.db.rooms[s.db.messages[k.msg].room].members))
      else Goto(s, t, Drop)
    case Drop => Returned(WithRows(s, MarkSent(s.db.rows, k.row)), t)
    case Draw(to) => Goto(s.(bus := EL.BusApply(s.bus, EL.Incr)), t, Push(s.bus.counter + 1, to))
    case Push(q, to) =>
      Goto(s.(bus := EL.BusApply(s.bus, EL.Push(EL.Event(TOPIC_MESSAGE_NEW, q, k.msg, to)))), t, Trim)
    case Trim => Goto(s.(bus := EL.BusApply(s.bus, EL.Trim)), t, Mark)
    case Mark => Returned(WithRows(s, MarkSent(s.db.rows, k.row)), t)
    case Recheck => Goto(WithRows(s, MarkSent(s.db.rows, k.row)), t, Written)
    case Written => End(s, t)
    case Failed =>
      if k.owner.Inline? then End(s, t)
      else if k.owner.retrySeen + 1 >= MAX_RETRY then End(WithRows(s, MarkDead(s.db.rows, k.row)), t)
      else End(WithRows(s, MarkRetry(s.db.rows, k.row, s.now, Worker.Pow2(k.owner.retrySeen))), t)
  }

  /** The committed transaction of a send; its inline dispatch begins. */
  function AfterSend(s: State, m: Message): State
    requires m.room in s.db.rooms
  {
    AddJob(s.(db := Committed(s.db, m, s.now), rowOf := s.rowOf[s.db.nextMsg := s.db.nextRow]),
           Job(Inline, s.db.nextRow, s.db.nextMsg, Lookup))
  }

  function AfterForeign(s: State, topic: string, payload: nat): State {
    s.(db := s.db.(rows := s.db.rows[s.db.nextRow := NewRow(topic, payload, s.now)], nextRow := s.db.nextRow + 1))
  }

  function AfterPoll(s: State, row: nat): State
    requires row in s.db.rows
  {
    AddJob(s, Job(ByWorker(s.db.rows[row].retry), row, s.db.rows[row].msg, Lookup))
  }

  function AfterFail(s: State, t: nat): State
    requires t in s.jobs
  {
    if s.jobs[t].owner.Inline? then End(s, t) else Goto(s, t, Failed)
  }

  ghost function Apply(s: State, a: Act): State
    requires Enabled(s, a)
  {
    match a
    case Send(m) => AfterSend(s, m)
    case Foreign(topic, payload) => AfterForeign(s, topic, payload)
    case Poll(row) => AfterPoll(s, row)
    case DropUnknown(row) => WithRows(s, MarkSent(s.db.rows, row))
    case Advance(t) => StepJob(s, t)
    case Fail(t) => AfterFail(s, t)
    case Crash(t) => End(s, t)
    case Other(b) => s.(bus := EL.BusApply(s.bus, b))
    case Cleanup => WithRows(s, WithoutExpired(s.db.rows, s.now, CLEANUP_AGE_SECONDS))
    case Tick(later) => s.(now := later)
  }

  // ----- the invariant

  /** Messages for which an event has been appended to the log. */
  ghost function Announced(history: seq<EL.Event>): set<nat> {
    set e | e in history && e.kind == TOPIC_MESSAGE_NEW :: e.data
  }

  /** Every message keeps its own row until it is announced, and only announced rows are sent. */
  ghost predicate RowsOk(msgs: set<nat>, rows: Rows, rowOf: map<nat, nat>, done: set<nat>) {
    rowOf.Keys == msgs && done <= msgs &&
    (forall m :: m in msgs ==>
      if rowOf[m] in rows then rows[rowOf[m]].topic == TOPIC_MESSAGE_NEW && rows[rowOf[m]].msg == m
      else m in done) &&
    (forall id :: id in rows && rows[id].topic == TOPIC_MESSAGE_NEW ==>
      rows[id].msg in msgs && rowOf[rows[id].msg] == id &&
      (rows[id].status == Sent ==> rows[id].msg in done))
  }

  ghost predicate Past(pc: Pc) {
    pc.Trim? || pc.Mark? || pc.Recheck? || pc.Written?
  }

  ghost predicate JobOk(k: Job, rowOf: map<nat, nat>, done: set<nat>, taken: set<int>) {
    k.msg in rowOf && rowOf[k.msg] == k.row && !k.pc.Drop? &&
    (Past(k.pc) ==> k.msg in done) &&
    (k.pc.Push? ==> k.pc.seqNo in taken)
  }

  ghost predicate JobsOk(jobs: map<nat, Job>, rowOf: map<nat, nat>, done: set<nat>, taken: set<int>) {
    (forall t :: t in jobs ==> JobOk(jobs[t], rowOf, done, taken)) &&
    (forall t, u :: t in jobs && u in jobs && t != u && jobs[t].pc.Push? ==>
      !Holds(jobs[u], jobs[t].pc.seqNo))
  }

  /** Ids are handed out in ascending order; a room's last message is its newest. */
  ghost predicate DbOk(db: Db, rowOf: map<nat, nat>) {
    (forall m :: m in db.messages ==>
      m < db.nextMsg && db.messages[m].room in db.rooms && m <= db.rooms[db.messages[m].room].lastMsg) &&
    (forall id :: id in db.rows ==> id < db.nextRow) &&
    (forall m :: m in rowOf ==> rowOf[m] < db.nextRow) &&
    (forall r :: r in db.rooms ==> db.rooms[r].lastMsg < db.nextMsg)
  }

  ghost predicate Inv(s: State) {
    EL.BusOk(s.bus) && DbOk(s.db, s.rowOf) &&
    RowsOk(s.db.messages.Keys, s.db.rows, s.rowOf, Announced(s.bus.history)) &&
    JobsOk(s.jobs, s.rowOf, Announced(s.bus.history), s.bus.taken) &&
    forall t :: t in s.jobs ==> t < s.nextJob
  }

  lemma MarkSentOk(msgs: set<nat>, rows: Rows, rowOf: map<nat, nat>, done: set<nat>, id: nat)
    requires RowsOk(msgs, rows, rowOf, done)
    requires id in rows && rows[id].topic == TOPIC_MESSAGE_NEW ==> rows[id].msg in done
    ensures RowsOk(msgs, MarkSent(rows, id), rowOf, done) && MarkSent(rows, id).Keys <= rows.Keys
  {
  }

  lemma RecoverOk(msgs: set<nat>, rows: Rows, rowOf: map<nat, nat>, done: set<nat>, id: nat, now: real, n: nat)
    requires RowsOk(msgs, rows, rowOf, done)
    ensures RowsOk(msgs, MarkDead(rows, id), rowOf, done) && MarkDead(rows, id).Keys <= rows.Keys
    ensures RowsOk(msgs, MarkRetry(rows, id, now, n), rowOf, done) && MarkRetry(rows, id, now, n).Keys <= rows.Keys
  {
  }

  lemma CleanupOk(msgs: set<nat>, rows: Rows, rowOf: map<nat, nat>, done: set<nat>, now: real)
    requires RowsOk(msgs, rows, rowOf, done)
    ensures RowsOk(msgs, WithoutExpired(rows, now, CLEANUP_AGE_SECONDS), rowOf, done)
    ensures WithoutExpired(rows, now, CLEANUP_AGE_SECONDS).Keys <= rows.Keys
  {
  }

  lemma AnnouncedGrows(history: seq<EL.Event>, e: EL.Event)
    ensures Announced(history + [e]) ==
              Announced(history) + (if e.kind == TOPIC_MESSAGE_NEW then {e.data} else {})
  {
  }

  /** A new message with its own new row. */
  lemma SendRowsOk(msgs: set<nat>, rows: Rows, rowOf: map<nat, nat>, done: set<nat>, m: nat, id: nat, now: real)
    requires RowsOk(msgs, rows, rowOf, done) && m !in msgs && id !in rows
    requires forall x :: x in rowOf ==> rowOf[x] != id
    ensures RowsOk(msgs + {m}, rows[id := NewRow(TOPIC_MESSAGE_NEW, m, now)], rowOf[m := id], done)
  {
  }

  lemma MoreRowsOk(msgs: set<nat>, rows: Rows, rowOf: map<nat, nat>, done: set<nat>, more: set<nat>)
    requires RowsOk(msgs, rows, rowOf, done) && more <= msgs
    ensures RowsOk(msgs, rows, rowOf, done + more)
  {
  }

  /** More messages and announcements, and numbers that no job holds, do not disturb the jobs. */
  lemma MoreJobsOk(jobs: map<nat, Job>, rowOf: map<nat, nat>, done: set<nat>, taken: set<int>,
                    rowOf': map<nat, nat>, done': set<nat>, taken': set<int>)
    requires JobsOk(jobs, rowOf, done, taken) && done <= done'
    requires forall m :: m in rowOf ==> m in rowOf' && rowOf'[m] == rowOf[m]
    requires forall q, t :: q in taken && t in jobs && Holds(jobs[t], q) ==> q in taken'
    ensures JobsOk(jobs, rowOf', done', taken')
  {
  }

  /** One job put in place; if it holds a number, nobody else does. */
  lemma PutJobOk(jobs: map<nat, Job>, rowOf: map<nat, nat>, done: set<nat>, taken: set<int>, t: nat, k: Job)
    requires JobsOk(jobs, rowOf, done, taken) && JobOk(k, rowOf, done, taken)
    requires k.pc.Push? ==> forall u :: u in jobs && u != t ==> !Holds(jobs[u], k.pc.seqNo)
    ensures JobsOk(jobs[t := k], rowOf, done, taken)
  {
  }

  /** Moving one job to an admissible place that holds no number keeps the jobs in order. */
  lemma GotoOk(s: State, t: nat, pc: Pc)
    requires Inv(s) && t in s.jobs && !pc.Push?
    requires JobOk(s.jobs[t].(pc := pc), s.rowOf, Announced(s.bus.history), s.bus.taken)
    ensures Inv(Goto(s, t, pc))
  {
  }

  lemma EndOk(s: State, t: nat)
    requires Inv(s)
    ensures Inv(End(s, t))
  {
  }

  lemma ReturnedOk(s: State, t: nat)
    requires Inv(s) && t in s.jobs && s.jobs[t].msg in Announced(s.bus.history)
    ensures Inv(Returned(s, t))
  {
    if s.jobs[t].owner.Inline? {
      EndOk(s, t);
    } else {
      GotoOk(s, t, Recheck);
    }
  }

  lemma WithRowsOk(s: State, rows: Rows)
    requires Inv(s) && rows.Keys <= s.db.rows.Keys
    requires RowsOk(s.db.messages.Keys, rows, s.rowOf, Announced(s.bus.history))
    ensures Inv(WithRows(s, rows))
  {
  }

  lemma MarkOk(s: State, t: nat)
    requires Inv(s) && t in s.jobs && s.jobs[t].msg in Announced(s.bus.history)
    ensures Inv(WithRows(s, MarkSent(s.db.rows, s.jobs[t].row)))
  {
    var k := s.jobs[t];
    assert JobOk(k, s.rowOf, Announced(s.bus.history), s.bus.taken);
    MarkSentOk(s.db.messages.Keys, s.db.rows, s.rowOf, Announced(s.bus.history), k.row);
    WithRowsOk(s, MarkSent(s.db.rows, k.row));
  }

  /** Numbers that no job holds do not disturb the jobs. */
  lemma TakenOk(jobs: map<nat, Job>, rowOf: map<nat, nat>, done: set<nat>, b: EL.Bus, a: EL.BusAct)
    requires JobsOk(jobs, rowOf, done, b.taken)
    requires a.Push? ==> forall t :: t in jobs ==> !Holds(jobs[t], a.event.seqNo)
    ensures JobsOk(jobs, rowOf, done, EL.BusApply(b, a).taken)
  {
    var taken := EL.BusApply(b, a).taken;
    forall t | t in jobs ensures JobOk(jobs[t], rowOf, done, taken) {
      assert JobOk(jobs[t], rowOf, done, b.taken);
    }
  }

  lemma OtherAnnouncesNothing(b: EL.Bus, a: EL.BusAct)
    requires a.Push? ==> a.event.kind != TOPIC_MESSAGE_NEW
    ensures Announced(EL.BusApply(b, a).history) == Announced(b.history)
  {
    if a.Push? {
      AnnouncedGrows(b.history, a.event);
    }
  }

  /** Drawing, trimming and pushes of other emitters. */
  lemma BusOnlyOk(s: State, a: EL.BusAct)
    requires Inv(s) && Enabled(s, Other(a))
    ensures Inv(s.(bus := EL.BusApply(s.bus, a)))
  {
    EL.BusStep(s.bus, a);
    OtherAnnouncesNothing(s.bus, a);
    TakenOk(s.jobs, s.rowOf, Announced(s.bus.history), s.bus, a);
  }

  /** The job draws a number that no job can hold yet. */
  lemma DrawJobsOk(jobs: map<nat, Job>, rowOf: map<nat, nat>, done: set<nat>, taken: set<int>,
                   t: nat, q: int, to: seq<nat>)
    requires JobsOk(jobs, rowOf, done, taken) && t in jobs && q !in taken
    ensures JobsOk(jobs[t := jobs[t].(pc := Push(q, to))], rowOf, done, taken + {q})
  {
    forall u | u in jobs ensures !Holds(jobs[u], q) && JobOk(jobs[u], rowOf, done, taken + {q}) {
      assert JobOk(jobs[u], rowOf, done, taken);
    }
  }

  lemma DrawOk(s: State, t: nat, to: seq<nat>)
    requires Inv(s) && t in s.jobs && s.jobs[t].pc == Draw(to)
    ensures Inv(StepJob(s, t))
  {
    EL.BusStep(s.bus, EL.Incr);
    DrawJobsOk(s.jobs, s.rowOf, Announced(s.bus.history), s.bus.taken, t, s.bus.counter + 1, to);
  }

  lemma PushOk(s: State, t: nat, q: int, to: seq<nat>)
    requires Inv(s) && t in s.jobs && s.jobs[t].pc == Push(q, to)
    ensures Inv(StepJob(s, t))
  {
    var k, done := s.jobs[t], Announced(s.bus.history);
    var e := EL.Event(TOPIC_MESSAGE_NEW, q, k.msg, to);
    assert JobOk(k, s.rowOf, done, s.bus.taken);
    EL.BusStep(s.bus, EL.Push(e));
    AnnouncedGrows(s.bus.history, e);
    MoreRowsOk(s.db.messages.Keys, s.db.rows, s.rowOf, done, {k.msg});
    PushJobsOk(s.jobs, s.rowOf, done, s.bus.taken, t);
  }

  /** The pushing job gives its number back and its message counts as announced. */
  lemma PushJobsOk(jobs: map<nat, Job>, rowOf: map<nat, nat>, done: set<nat>, taken: set<int>, t: nat)
    requires JobsOk(jobs, rowOf, done, taken) && t in jobs && jobs[t].pc.Push?
    ensures JobsOk(jobs[t := jobs[t].(pc := Trim)], rowOf, done + {jobs[t].msg}, taken - {jobs[t].pc.seqNo})
  {
  }

  lemma LookupKeepsInv(s: State, t: nat)
    requires Inv(s) && t in s.jobs && s.jobs[t].pc == Lookup
    ensures Inv(StepJob(s, t))
  {
    var k := s.jobs[t];
    assert JobOk(k, s.rowOf, Announced(s.bus.history), s.bus.taken);
    GotoOk(s, t, Draw(s.db.rooms[s.db.messages[k.msg].room].members));
  }

  lemma TrimKeepsInv(s: State, t: nat)
    requires Inv(s) && t in s.jobs && s.jobs[t].pc == Trim
    ensures Inv(StepJob(s, t))
  {
    assert JobOk(s.jobs[t], s.rowOf, Announced(s.bus.history), s.bus.taken);
    BusOnlyOk(s, EL.Trim);
    GotoOk(s.(bus := EL.BusApply(s.bus, EL.Trim)), t, Mark);
  }

  /** Both marks after an announced event. */
  lemma MarkKeepsInv(s: State, t: nat)
    requires Inv(s) && t in s.jobs && (s.jobs[t].pc == Mark || s.jobs[t].pc == Recheck)
    ensures Inv(StepJob(s, t))
  {
    var k := s.jobs[t];
    assert JobOk(k, s.rowOf, Announced(s.bus.history), s.bus.taken);
    var s' := WithRows(s, MarkSent(s.db.rows, k.row));
    MarkOk(s, t);
    if k.pc == Mark {
      ReturnedOk(s', t);
    } else {
      GotoOk(s', t, Written);
    }
  }

  lemma AdvanceKeepsInv(s: State, t: nat)
    requires Inv(s) && t in s.jobs
    ensures Inv(StepJob(s, t))
  {
    assert JobOk(s.jobs[t], s.rowOf, Announced(s.bus.history), s.bus.taken);
    match s.jobs[t].pc {
      case Lookup => LookupKeepsInv(s, t);
      case Drop =>
      case Draw(to) => DrawOk(s, t, to);
      case Push(q, to) => PushOk(s, t, q, to);
      case Trim => TrimKeepsInv(s, t);
      case Mark => MarkKeepsInv(s, t);
      case Recheck => MarkKeepsInv(s, t);
      case Written => EndOk(s, t);
      case Failed => RecoverKeepsInv(s, t);
    }
  }

  lemma RecoverKeepsInv(s: State, t: nat)
    requires Inv(s) && t in s.jobs && s.jobs[t].pc.Failed?
    ensures Inv(StepJob(s, t))
  {
    var k := s.jobs[t];
    if k.owner.Inline? {
      EndOk(s, t);
    } else {
      var n := Worker.Pow2(k.owner.retrySeen);
      RecoverOk(s.db.messages.Keys, s.db.rows, s.rowOf, Announced(s.bus.history), k.row, s.now, n);
      var rows := if k.owner.retrySeen + 1 >= MAX_RETRY then MarkDead(s.db.rows, k.row)
                  else MarkRetry(s.db.rows, k.row, s.now, n);
      WithRowsOk(s, rows);
      EndOk(WithRows(s, rows), t);
    }
  }

  lemma SendKeepsInv(s: State, m: Message)
    requires Inv(s) && m.room in s.db.rooms
    ensures Inv(AfterSend(s, m))
  {
    var done, rowOf' := Announced(s.bus.history), s.rowOf[s.db.nextMsg := s.db.nextRow];
    SendRowsOk(s.db.messages.Keys, s.db.rows, s.rowOf, done, s.db.nextMsg, s.db.nextRow, s.now);
    assert s.db.messages[s.db.nextMsg := m].Keys == s.db.messages.Keys + {s.db.nextMsg};
    SendDbOk(s.db, s.rowOf, m, s.now);
    MoreJobsOk(s.jobs, s.rowOf, done, s.bus.taken, rowOf', done, s.bus.taken);
    PutJobOk(s.jobs, rowOf', done, s.bus.taken, s.nextJob, Job(Inline, s.db.nextRow, s.db.nextMsg, Lookup));
  }

  lemma SendDbOk(db: Db, rowOf: map<nat, nat>, m: Message, now: real)
    requires DbOk(db, rowOf) && m.room in db.rooms
    ensures DbOk(Committed(db, m, now), rowOf[db.nextMsg := db.nextRow])
  {
  }

  lemma PollKeepsInv(s: State, row: nat)
    requires Inv(s) && Enabled(s, Poll(row))
    ensures Inv(AfterPoll(s, row))
  {
    var r, done := s.db.rows[row], Announced(s.bus.history);
    PutJobOk(s.jobs, s.rowOf, done, s.bus.taken, s.nextJob, Job(ByWorker(r.retry), row, r.msg, Lookup));
  }

  lemma ForeignRowsOk(msgs: set<nat>, rows: Rows, rowOf: map<nat, nat>, done: set<nat>, id: nat, r: Row)
    requires RowsOk(msgs, rows, rowOf, done) && r.topic != TOPIC_MESSAGE_NEW
    requires id !in rows && forall x :: x in rowOf ==> rowOf[x] != id
    ensures RowsOk(msgs, rows[id := r], rowOf, done)
  {
  }

  lemma ForeignKeepsInv(s: State, topic: string, payload: nat)
    requires Inv(s) && topic != TOPIC_MESSAGE_NEW
    ensures Inv(AfterForeign(s, topic, payload))
  {
    ForeignRowsOk(s.db.messages.Keys, s.db.rows, s.rowOf, Announced(s.bus.history), s.db.nextRow,
                  NewRow(topic, payload, s.now));
  }

  lemma FailKeepsInv(s: State, t: nat)
    requires Inv(s) && t in s.jobs
    ensures Inv(AfterFail(s, t))
  {
    if s.jobs[t].owner.Inline? {
      EndOk(s, t);
    } else {
      assert JobOk(s.jobs[t], s.rowOf, Announced(s.bus.history), s.bus.taken);
      GotoOk(s, t, Failed);
    }
  }

  lemma DropKeepsInv(s: State, row: nat)
    requires Inv(s) && row in s.db.rows && s.db.rows[row].topic != TOPIC_MESSAGE_NEW
    ensures Inv(WithRows(s, MarkSent(s.db.rows, row)))
  {
    MarkSentOk(s.db.messages.Keys, s.db.rows, s.rowOf, Announced(s.bus.history), row);
    WithRowsOk(s, MarkSent(s.db.rows, row));
  }

  lemma CleanupKeepsInv(s: State)
    requires Inv(s)
    ensures Inv(WithRows(s, WithoutExpired(s.db.rows, s.now, CLEANUP_AGE_SECONDS)))
  {
    CleanupOk(s.db.messages.Keys, s.db.rows, s.rowOf, Announced(s.bus.history), s.now);
    WithRowsOk(s, WithoutExpired(s.db.rows, s.now, CLEANUP_AGE_SECONDS));
  }

  lemma StepKeepsInv(s: State, a: Act)
    requires Inv(s) && Enabled(s, a)
    ensures Inv(Apply(s, a))
  {
    match a {
      case Send(m) => SendKeepsInv(s, m);
      case Foreign(topic, payload) => ForeignKeepsInv(s, topic, payload);
      case Poll(row) => PollKeepsInv(s, row);
      case DropUnknown(row) => DropKeepsInv(s, row);
      case Advance(t) => AdvanceKeepsInv(s, t);
      case Fail(t) => FailKeepsInv(s, t);
      case Crash(t) => EndOk(s, t);
      case Other(b) => BusOnlyOk(s, b);
      case Cleanup => CleanupKeepsInv(s);
      case Tick(later) =>
    }
  }
}
