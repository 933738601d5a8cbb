/** The replay log: a sequence counter and a trimmed list of events, newest first. */
module EventLog {
  import opened Basics

  const MAX_EVENTS: nat := 1000

  datatype Event = Event(kind: string, seqNo: int, data: nat, to: seq<nat>)

  /** What a client receives: the audience is not sent out. */
  datatype Envelope = Envelope(kind: string, seqNo: int, data: nat)

  function Strip(e: Event): Envelope {
    Envelope(e.kind, e.seqNo, e.data)
  }

  function Newest(log: seq<Event>): seq<Event> {
    log[..Min(MAX_EVENTS, |log|)]
  }

  // ----- what replay computes, and what a client may expect

  /** The scan of `replay` over a newest-first list: it stops at the first event that is not
      newer than `last`; the result is in ascending order of age. */
  function Replayed(raw: seq<Event>, user: nat, last: int): seq<Envelope> {
    if raw == [] || raw[0].seqNo <= last then []
    else Replayed(raw[1..], user, last) + if user in raw[0].to then [Strip(raw[0])] else []
  }

  /** Everything in a newest-first list that is addressed to the user and newer than `last`. */
  function Wanted(raw: seq<Event>, user: nat, last: int): seq<Envelope> {
    if raw == [] then []
    else
      Wanted(raw[1..], user, last) +
      if raw[0].seqNo > last && user in raw[0].to then [Strip(raw[0])] else []
  }

  /** No event with an audience lies behind an event with a smaller number. */
  ghost predicate InOrder(raw: seq<Event>) {
    forall i, j :: 0 <= i < j < |raw| && raw[j].to != [] ==> raw[j].seqNo <= raw[i].seqNo
  }

  lemma {:induction false} ReplayStop(raw: seq<Event>, user: nat, last: int)
    requires forall j :: 0 <= j < |raw| && user in raw[j].to ==> raw[j].seqNo <= last
    ensures Wanted(raw, user, last) == []
  {
    if raw != [] {
      assert forall j :: 0 <= j < |raw| - 1 ==> raw[1..][j] == raw[j + 1];
      ReplayStop(raw[1..], user, last);
    }
  }

  lemma {:induction false} InOrderReplays(raw: seq<Event>, user: nat, last: int)
    requires InOrder(raw)
    ensures Replayed(raw, user, last) == Wanted(raw, user, last)
  {
    if raw != [] {
      assert forall j :: 0 <= j < |raw| - 1 ==> raw[1..][j] == raw[j + 1];
      if raw[0].seqNo <= last {
        ReplayStop(raw, user, last);
      } else {
        InOrderReplays(raw[1..], user, last);
      }
    }
  }

  /** The lengths of the two lists differ as soon as one wanted event lies behind the stop. */
  lemma {:induction false} ReplayedShorter(raw: seq<Event>, user: nat, last: int)
    ensures |Replayed(raw, user, last)| <= |Wanted(raw, user, last)|
  {
    if raw != [] && raw[0].seqNo > last {
      ReplayedShorter(raw[1..], user, last);
    }
  }

  lemma {:induction false} WantedContains(raw: seq<Event>, user: nat, last: int, j: nat)
    requires j < |raw| && raw[j].seqNo > last && user in raw[j].to
    ensures Strip(raw[j]) in Wanted(raw, user, last)
  {
    if j > 0 {
      WantedContains(raw[1..], user, last, j - 1);
    }
  }

  lemma {:induction false} InversionLoses(raw: seq<Event>, user: nat, i: nat, j: nat)
    requires i < j < |raw| && user in raw[j].to && raw[i].seqNo < raw[j].seqNo
    ensures |Replayed(raw, user, raw[i].seqNo)| < |Wanted(raw, user, raw[i].seqNo)|
  {
    var last := raw[i].seqNo;
    if raw[0].seqNo <= last {
      WantedContains(raw, user, last, j);
    } else {
      InversionLoses(raw[1..], user, i - 1, j - 1);
    }
  }

  /** Replay returns everything a client missed, for every client and every position, if and
      only if the list is in order. */
  lemma ReplayCompleteExactly(raw: seq<Event>)
    ensures (forall user, last :: Replayed(raw, user, last) == Wanted(raw, user, last)) <==> InOrder(raw)
  {
    if InOrder(raw) {
      forall user, last ensures Replayed(raw, user, last) == Wanted(raw, user, last) {
        InOrderReplays(raw, user, last);
      }
    } else {
      var i, j :| 0 <= i < j < |raw| && raw[j].to != [] && raw[i].seqNo < raw[j].seqNo;
      var user := raw[j].to[0];
      InversionLoses(raw, user, i, j);
      assert Replayed(raw, user, raw[i].seqNo) != Wanted(raw, user, raw[i].seqNo);
    }
  }

  // ----- emitters that interleave

  /** `taken` are numbers drawn by INCR and not pushed yet; `history` is every event ever
      pushed, oldest first. */
  datatype Bus = Bus(counter: int, log: seq<Event>, taken: set<int>, history: seq<Event>)

  datatype BusAct = Incr | Push(event: Event) | Trim

  /** An emitter pushes an event under the number it drew; one that fails never pushes. */
  predicate BusEnabled(b: Bus, a: BusAct) {
    a.Push? ==> a.event.seqNo in b.taken
  }

  function BusApply(b: Bus, a: BusAct): Bus {
    match a
    case Incr => b.(counter := b.counter + 1, taken := b.taken + {b.counter + 1})
    case Push(e) => b.(log := [e] + b.log, taken := b.taken - {e.seqNo}, history := b.history + [e])
    case Trim => b.(log := Newest(b.log))
  }

  const EMPTY_BUS := Bus(0, [], {}, [])

  function Reverse<T>(s: seq<T>): (r: seq<T>)
    ensures |r| == |s|
  {
    if s == [] then [] else Reverse(s[1..]) + [s[0]]
  }

  lemma {:induction false} ReverseSnoc<T>(s: seq<T>, x: T)
    ensures Reverse(s + [x]) == [x] + Reverse(s)
  {
    if s != [] {
      assert (s + [x])[1..] == s[1..] + [x];
      ReverseSnoc(s[1..], x);
    }
  }

  /** Numbers are drawn before they are pushed, and pushed at most once. */
  ghost predicate Numbered(b: Bus) {
    b.counter >= 0 && (forall q :: q in b.taken ==> 0 < q <= b.counter) &&
    (forall i :: 0 <= i < |b.history| ==> b.history[i].seqNo <= b.counter && b.history[i].seqNo !in b.taken) &&
    (forall i, j :: 0 <= i < j < |b.history| ==> b.history[i].seqNo != b.history[j].seqNo)
  }

  /** The list is the newest part of the history, newest first, cut no shorter than MAX_EVENTS. */
  ghost predicate Kept(b: Bus) {
    Min(MAX_EVENTS, |b.history|) <= |b.log| <= |b.history| &&
    (forall k :: 0 <= k < |b.log| ==> b.log[k] == b.history[|b.history| - 1 - k])
  }

  ghost predicate BusOk(b: Bus) {
    Numbered(b) && Kept(b)
  }

  lemma BusStep(b: Bus, a: BusAct)
    requires BusOk(b) && BusEnabled(b, a)
    ensures BusOk(BusApply(b, a))
  {
  }

  /** A trim cuts the list to its newest 1000 events and touches nothing else. */
  lemma TrimExact(b: Bus)
    ensures var b' := BusApply(b, Trim);
            |b'.log| == (if |b.log| > 1000 then 1000 else |b.log|) && b'.log <= b.log &&
            b'.counter == b.counter && b'.taken == b.taken && b'.history == b.history
  {
  }

  ghost predicate BusRun(b: Bus, acts: seq<BusAct>, b': Bus)
    decreases |acts|
  {
    if acts == [] then b == b'
    else BusEnabled(b, acts[0]) && BusRun(BusApply(b, acts[0]), acts[1..], b')
  }

  lemma {:induction false} BusRunOk(b: Bus, acts: seq<BusAct>, b': Bus)
    requires BusOk(b) && BusRun(b, acts, b')
    ensures BusOk(b')
    decreases |acts|
  {
    if acts != [] {
      BusStep(b, acts[0]);
      BusRunOk(BusApply(b, acts[0]), acts[1..], b');
    }
  }

  lemma {:induction false} ReverseHas(s: seq<Event>, k: nat)
    requires k < |s|
    ensures Reverse(s)[k] == s[|s| - 1 - k]
  {
    if k < |s| - 1 {
      ReverseHas(s[1..], k);
    }
  }

  ghost predicate Delivers(e: Event, user: nat, last: int, r: Envelope) {
    r == Strip(e) && e.seqNo > last && user in e.to
  }

  /** The envelope belongs to a pushed event the user was entitled to and missed. */
  ghost predicate Owed(history: seq<Event>, user: nat, last: int, r: Envelope) {
    exists k :: 0 <= k < |history| && Delivers(history[k], user, last, r)
  }

  /** That is: an event with the same kind, number and data, newer than the position and with the
      user in its audience. */
  lemma OwedExactly(history: seq<Event>, user: nat, last: int, r: Envelope)
    ensures Owed(history, user, last, r) <==>
              exists k :: 0 <= k < |history| && history[k].seqNo > last && user in history[k].to &&
                          r == Envelope(history[k].kind, history[k].seqNo, history[k].data)
  {
    if k :| 0 <= k < |history| && history[k].seqNo > last && user in history[k].to &&
            r == Envelope(history[k].kind, history[k].seqNo, history[k].data)
    {
      assert Delivers(history[k], user, last, r);
    }
  }

  lemma {:induction false} ReplayedFrom(raw: seq<Event>, user: nat, last: int, i: nat) returns (k: nat)
    requires i < |Replayed(raw, user, last)|
    ensures k < |raw| && Delivers(raw[k], user, last, Replayed(raw, user, last)[i])
  {
    if i < |Replayed(raw[1..], user, last)| {
      k := ReplayedFrom(raw[1..], user, last, i);
      k := k + 1;
    } else {
      k := 0;
    }
  }

  lemma {:induction false} ReplayedOnce(raw: seq<Event>, user: nat, last: int, i: nat, j: nat)
    requires forall x, y :: 0 <= x < y < |raw| ==> raw[x].seqNo != raw[y].seqNo
    requires i < j < |Replayed(raw, user, last)|
    ensures Replayed(raw, user, last)[i].seqNo != Replayed(raw, user, last)[j].seqNo
  {
    var rest := Replayed(raw[1..], user, last);
    if j < |rest| {
      ReplayedOnce(raw[1..], user, last, i, j);
    } else {
      var k := ReplayedFrom(raw[1..], user, last, i);
      assert raw[1..][k] == raw[k + 1];
    }
  }

  /** However emitters interleave, fail or overtake one another, a reconnecting client gets
      only pushed events that are addressed to it and newer than its position, each once. */
  lemma ReplaySound(b: Bus, user: nat, last: int)
    requires BusOk(b)
    ensures var got := Replayed(Newest(b.log), user, last);
            (forall i :: 0 <= i < |got| ==> Owed(b.history, user, last, got[i])) &&
            (forall i, j :: 0 <= i < j < |got| ==> got[i].seqNo != got[j].seqNo)
  {
    var raw := Newest(b.log);
    var got := Replayed(raw, user, last);
    forall i | 0 <= i < |got| ensures Owed(b.history, user, last, got[i]) {
      var k := ReplayedFrom(raw, user, last, i);
      assert raw[k] == b.history[|b.history| - 1 - k];
    }
    forall i, j | 0 <= i < j < |got| ensures got[i].seqNo != got[j].seqNo {
      ReplayedOnce(raw, user, last, i, j);
    }
  }

  lemma ReplaySoundInEveryRun(acts: seq<BusAct>, b: Bus, user: nat, last: int)
    requires BusRun(EMPTY_BUS, acts, b)
    ensures var got := Replayed(Newest(b.log), user, last);
            (forall i :: 0 <= i < |got| ==> Owed(b.history, user, last, got[i])) &&
            (forall i, j :: 0 <= i < j < |got| ==> got[i].seqNo != got[j].seqNo)
  {
    BusRunOk(EMPTY_BUS, acts, b);
    ReplaySound(b, user, last);
  }

  /** Two emitters whose pushes swap lose an event: number 2 is pushed before number 1, and a
      client that has seen number 1 never gets number 2. */
  lemma SwappedPushesLose(to: nat)
    ensures var one, two := Event("message.new", 1, 10, [to]), Event("message.new", 2, 20, [to]);
            var b := Bus(2, [one, two], {}, [two, one]);
            BusRun(EMPTY_BUS, [Incr, Incr, Push(two), Push(one)], b) &&
            Replayed(Newest(b.log), to, 1) == [] &&
            Wanted(Newest(b.log), to, 1) == [Strip(two)]
  {
    var one, two := Event("message.new", 1, 10, [to]), Event("message.new", 2, 20, [to]);
    var b1 := BusApply(EMPTY_BUS, Incr);
    var b2 := BusApply(b1, Incr);
    var b3 := BusApply(b2, Push(two));
    var b4 := BusApply(b3, Push(one));
    assert b2.taken == {1, 2} && b3.taken == {1} && b4.taken == {};
    assert b4 == Bus(2, [one, two], {}, [two, one]);
    assert BusRun(b4, [], b4);
    assert [Push(one)][1..] == [] && BusRun(b3, [Push(one)], b4);
    assert [Push(two), Push(one)][1..] == [Push(one)] && BusRun(b2, [Push(two), Push(one)], b4);
    assert [Incr, Push(two), Push(one)][1..] == [Push(two), Push(one)];
    assert BusRun(b1, [Incr, Push(two), Push(one)], b4);
    assert [Incr, Incr, Push(two), Push(one)][1..] == [Incr, Push(two), Push(one)];
    var raw := [one, two];
    assert Newest(b4.log) == raw && raw[1..] == [two] && [two][1..] == [];
    assert Wanted([two], to, 1) == Wanted([], to, 1) + [Strip(two)];
    assert Wanted(raw, to, 1) == Wanted([two], to, 1) + [];
  }

  // ----- emitters that do not interleave

  /** The events of a history addressed to the user with a number above `after`, oldest first. */
  function Since(history: seq<Event>, user: nat, after: int): seq<Envelope> {
    if history == [] then []
    else
      (if history[0].seqNo > after && user in history[0].to then [Strip(history[0])] else []) +
      Since(history[1..], user, after)
  }

  lemma {:induction false} WantedSnoc(raw: seq<Event>, e: Event, user: nat, last: int)
    ensures Wanted(raw + [e], user, last) ==
              (if e.seqNo > last && user in e.to then [Strip(e)] else []) + Wanted(raw, user, last)
  {
    if raw != [] {
      assert (raw + [e])[1..] == raw[1..] + [e];
      WantedSnoc(raw[1..], e, user, last);
    } else {
      assert (raw + [e])[1..] == [];
    }
  }

  lemma {:induction false} WantedIsSince(history: seq<Event>, user: nat, last: int)
    ensures Wanted(Reverse(history), user, last) == Since(history, user, last)
  {
    if history != [] {
      WantedIsSince(history[1..], user, last);
      WantedSnoc(Reverse(history[1..]), history[0], user, last);
    }
  }

  /** A newest-first list of the last events of a history is the history's end, reversed. */
  lemma IsReversedEnd(raw: seq<Event>, history: seq<Event>)
    requires |raw| <= |history| && forall k :: 0 <= k < |raw| ==> raw[k] == history[|history| - 1 - k]
    ensures raw == Reverse(history[|history| - |raw|..])
  {
    var recent := history[|history| - |raw|..];
    forall k | 0 <= k < |raw| ensures raw[k] == Reverse(recent)[k] {
      ReverseHas(recent, k);
    }
  }

  lemma NewestAreLast(b: Bus)
    requires Kept(b)
    ensures var raw := Newest(b.log);
            |raw| == Min(MAX_EVENTS, |b.history|) &&
            forall k :: 0 <= k < |raw| ==> raw[k] == b.history[|b.history| - 1 - k]
  {
  }

  /** A reversed end of an ordered history replays completely. */
  lemma OrderedEndReplays(raw: seq<Event>, history: seq<Event>, user: nat, last: int)
    requires |raw| <= |history| && forall k :: 0 <= k < |raw| ==> raw[k] == history[|history| - 1 - k]
    requires forall i, j :: 0 <= i < j < |history| ==> history[i].seqNo < history[j].seqNo
    ensures Replayed(raw, user, last) == Since(history[|history| - |raw|..], user, last)
  {
    InOrderReplays(raw, user, last);
    IsReversedEnd(raw, history);
    WantedIsSince(history[|history| - |raw|..], user, last);
  }

  /** If pushes land in the order of their numbers, replay loses nothing: it returns every event
      of the newest MAX_EVENTS pushed that is addressed to the user and newer than its position,
      in the order in which they were pushed. */
  lemma OrderedPushesComplete(acts: seq<BusAct>, b: Bus, user: nat, last: int)
    requires BusRun(EMPTY_BUS, acts, b)
    requires forall i, j :: 0 <= i < j < |b.history| ==> b.history[i].seqNo < b.history[j].seqNo
    ensures var n := |b.history|;
            Replayed(Newest(b.log), user, last) == Since(b.history[if n > 1000 then n - 1000 else 0..], user, last)
  {
    BusRunOk(EMPTY_BUS, acts, b);
    NewestAreLast(b);
    OrderedEndReplays(Newest(b.log), b.history, user, last);
  }

  /** The envelopes of a history that a user is owed, on the history alone: what is sent of each
      event is its kind, number and data. */
  lemma {:induction false} SinceExact(history: seq<Event>, user: nat, after: int, r: Envelope)
    ensures r in Since(history, user, after) <==>
              exists k :: 0 <= k < |history| && history[k].seqNo > after && user in history[k].to &&
                          r == Envelope(history[k].kind, history[k].seqNo, history[k].data)
  {
    if history != [] {
      var rest := history[1..];
      SinceExact(rest, user, after, r);
      assert forall k :: 0 <= k < |rest| ==> rest[k] == history[k + 1];
      assert forall k :: 0 < k < |history| ==> history[k] == rest[k - 1];
    }
  }

  /** They come in the order in which they were pushed: ascending numbers stay ascending. */
  lemma {:induction false} SinceAscends(history: seq<Event>, user: nat, after: int, i: nat, j: nat)
    requires forall x, y :: 0 <= x < y < |history| ==> history[x].seqNo < history[y].seqNo
    requires i < j < |Since(history, user, after)|
    ensures Since(history, user, after)[i].seqNo < Since(history, user, after)[j].seqNo
  {
    var rest := history[1..];
    var d := |Since(history, user, after)| - |Since(rest, user, after)|;
    if i >= d {
      SinceAscends(rest, user, after, i - d, j - d);
    } else {
      var r := Since(rest, user, after)[j - d];
      SinceExact(rest, user, after, r);
      var k :| 0 <= k < |rest| && r == Envelope(rest[k].kind, rest[k].seqNo, rest[k].data);
      assert history[0].seqNo < history[k + 1].seqNo;
    }
  }

  /** Cutting a list at a number is the same as asking only for larger numbers. */
  lemma {:induction false} WantedCut(raw: seq<Event>, k: nat, user: nat, last: int, cut: int)
    requires k <= |raw|
    requires forall i :: 0 <= i < k ==> raw[i].seqNo > cut
    requires forall i :: k <= i < |raw| ==> raw[i].seqNo <= cut
    ensures Wanted(raw[..k], user, last) == Wanted(raw, user, Max(last, cut))
  {
    if k > 0 {
      assert raw[..k][1..] == raw[1..][..k - 1];
      WantedCut(raw[1..], k - 1, user, last, cut);
    } else {
      ReplayStop(raw, user, Max(last, cut));
    }
  }

  /** The log of emitters that never interleave: consecutive numbers, newest first, and exactly
      the newest MAX_EVENTS of the history. */
  ghost predicate Sequential(counter: int, log: seq<Event>, history: seq<Event>) {
    counter == |history| && (forall i :: 0 <= i < |history| ==> history[i].seqNo == i + 1) &&
    log == Newest(Reverse(history))
  }

  lemma SequentialReplay(counter: int, log: seq<Event>, history: seq<Event>, user: nat, last: int)
    requires Sequential(counter, log, history)
    ensures forall k :: 0 <= k < |log| ==> log[k].seqNo == counter - k
    ensures Replayed(log, user, last) == Since(history, user, Max(last, counter - MAX_EVENTS))
  {
    var rev := Reverse(history);
    forall k | 0 <= k < |rev| ensures rev[k].seqNo == counter - k {
      ReverseHas(history, k);
    }
    InOrderReplays(log, user, last);
    WantedCut(rev, Min(MAX_EVENTS, |rev|), user, last, counter - MAX_EVENTS);
    WantedIsSince(history, user, Max(last, counter - MAX_EVENTS));
  }

  lemma LogIsNewest(counter: int, log: seq<Event>, history: seq<Event>)
    requires Sequential(counter, log, history)
    ensures |log| == (if |history| > 1000 then 1000 else |history|)
    ensures forall k :: 0 <= k < |log| ==> log[k] == history[|history| - 1 - k]
  {
    forall k | 0 <= k < |log| ensures log[k] == history[|history| - 1 - k] {
      ReverseHas(history, k);
    }
  }

  /** What `replay` returns is exactly what the user missed: an envelope is in it if and only if it
      belongs to a pushed event addressed to the user, newer than its position and among the last
      1000 numbers; numbers ascend. */
  lemma ReplayExact(counter: int, log: seq<Event>, history: seq<Event>, user: nat, last: int)
    requires Sequential(counter, log, history)
    ensures var events := Since(history, user, Max(last, counter - 1000));
            events == Replayed(log, user, last) &&
            (forall r :: r in events <==>
              exists k :: 0 <= k < |history| && history[k].seqNo > last && history[k].seqNo > counter - 1000 &&
                          user in history[k].to &&
                          r == Envelope(history[k].kind, history[k].seqNo, history[k].data)) &&
            (forall i, j :: 0 <= i < j < |events| ==> events[i].seqNo < events[j].seqNo)
  {
    var after := Max(last, counter - 1000);
    var events := Since(history, user, after);
    SequentialReplay(counter, log, history, user, last);
    forall r
      ensures r in events <==>
                exists k :: 0 <= k < |history| && history[k].seqNo > last && history[k].seqNo > counter - 1000 &&
                            user in history[k].to &&
                            r == Envelope(history[k].kind, history[k].seqNo, history[k].data)
    {
      SinceExact(history, user, after, r);
    }
    forall i, j | 0 <= i < j < |events| ensures events[i].seqNo < events[j].seqNo {
      SinceAscends(history, user, after, i, j);
    }
  }

  class PushService {
    var counter: int
    var log: seq<Event>
    ghost var history: seq<Event>

    ghost predicate Valid()
      reads this
    {
      Sequential(counter, log, history)
    }

    constructor ()
      ensures Valid() && history == []
    {
      counter, log, history := 0, [], [];
    }

    /** `_emit`: INCR, LPUSH, LTRIM without another emitter in between. */
    method Emit(kind: string, data: nat, audience: seq<nat>) returns (sent: Envelope)
      requires Valid()
      modifies this
      ensures Valid() && counter == old(counter) + 1
      ensures history == old(history) + [Event(kind, counter, data, audience)]
      ensures sent == Envelope(kind, counter, data)
      ensures |log| == (if |history| > 1000 then 1000 else |history|)
      ensures forall k :: 0 <= k < |log| ==> log[k] == history[|history| - 1 - k]
    {
      counter := counter + 1;
      var event := Event(kind, counter, data, audience);
      ReverseSnoc(history, event);
      log := [event] + log;
      log := log[..Min(MAX_EVENTS, |log|)];
      history := history + [event];
      sent := Strip(event);
      LogIsNewest(counter, log, history);
    }

    /** `replay`: exactly the events addressed to the user after its position, oldest first, as
        far as the last MAX_EVENTS numbers reach. */
    method Replay(user: nat, last: int) returns (events: seq<Envelope>)
      requires Valid()
      ensures events == Since(history, user, Max(last, counter - 1000))
    {
      var raw := log[..Min(MAX_EVENTS, |log|)];
      assert raw == log;
      SequentialReplay(counter, log, history, user, last);
      events := [];
      assert raw[0..] == raw && Reverse<Envelope>([]) == [];
      for i := 0 to |raw|
        invariant Replayed(raw, user, last) == Replayed(raw[i..], user, last) + Reverse(events)
      {
        var event := raw[i];
        assert raw[i..][1..] == raw[i + 1..];
        if event.seqNo <= last {
          assert Replayed(raw[i..], user, last) == [];
          events := Reverse(events);
          return;
        }
        if user in event.to {
          ReverseSnoc(events, Strip(event));
          events := events + [Strip(event)];
        }
      }
      events := Reverse(events);
    }
  }
}
