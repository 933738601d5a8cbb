/** The sliding-window limiter on one key: a sorted set of request times with an expiry. */
module RateLimit {
  import opened Basics

  /** The least whole number not below `x`. */
  function Ceil(x: real): int {
    if x == x.Floor as real then x.Floor else x.Floor + 1
  }

  /** The request times of a history that lie in (from, to]. */
  function Within(history: seq<real>, from: real, to: real): seq<real> {
    if history == [] then []
    else
      var rest, last := Within(history[..|history| - 1], from, to), history[|history| - 1];
      if from < last <= to then rest + [last] else rest
  }

  ghost predicate Ordered(history: seq<real>) {
    forall i, j :: 0 <= i < j < |history| ==> history[i] <= history[j]
  }

  /** `ZREMRANGEBYSCORE key 0 max`. */
  function Pruned(scores: seq<real>, max: real): seq<real> {
    if scores == [] then []
    else
      var rest, last := Pruned(scores[..|scores| - 1], max), scores[|scores| - 1];
      if 0.0 <= last <= max then rest else rest + [last]
  }

  datatype Verdict = Admitted | Rejected(retryAfter: int)

  lemma {:induction false} WithinAll(history: seq<real>, from: real, to: real)
    requires forall i :: 0 <= i < |history| ==> from < history[i] <= to
    ensures Within(history, from, to) == history
  {
    if history != [] {
      WithinAll(history[..|history| - 1], from, to);
    }
  }

  lemma {:induction false} WithinNone(history: seq<real>, from: real, to: real)
    requires forall i :: 0 <= i < |history| ==> history[i] <= from
    ensures Within(history, from, to) == []
  {
    if history != [] {
      WithinNone(history[..|history| - 1], from, to);
    }
  }

  lemma {:induction false} WithinAppend(a: seq<real>, b: seq<real>, from: real, to: real)
    ensures Within(a + b, from, to) == Within(a, from, to) + Within(b, from, to)
  {
    if b == [] {
      assert a + b == a;
    } else {
      assert (a + b)[..|a + b| - 1] == a + b[..|b| - 1] && (a + b)[|a + b| - 1] == b[|b| - 1];
      WithinAppend(a, b[..|b| - 1], from, to);
    }
  }

  lemma PrunedSnoc(scores: seq<real>, x: real, max: real)
    ensures Pruned(scores + [x], max) ==
              if 0.0 <= x <= max then Pruned(scores, max) else Pruned(scores, max) + [x]
  {
  }

  /** Pruning the window of an earlier moment gives the window of a later one. */
  lemma {:induction false} PrunedWindow(history: seq<real>, from: real, from': real, to: real, to': real)
    requires from <= from' && to <= to' && forall i :: 0 <= i < |history| ==> 0.0 <= history[i] <= to
    ensures Pruned(Within(history, from, to), from') == Within(history, from', to')
  {
    if history != [] {
      var init, last := history[..|history| - 1], history[|history| - 1];
      PrunedWindow(init, from, from', to, to');
      PrunedSnoc(Within(init, from, to), last, from');
    }
  }

  /** The advice given on a rejection, from the oldest request in the window. */
  function RetryAfter(window: nat, now: real, oldest: real): int {
    Max(1, Ceil(window as real - (now - oldest)))
  }

  /** The least whole number of seconds after which the oldest request has left the window. */
  lemma RetryAfterLeast(window: nat, now: real, oldest: real)
    requires window > 0 && now - window as real < oldest <= now
    ensures var n := RetryAfter(window, now, oldest);
            1 <= n <= window && oldest <= now + n as real - window as real &&
            oldest > now + (n - 1) as real - window as real
  {
  }

  // ----- the decision, as a function of all request times

  ghost predicate AdmittedAt(history: seq<real>, k: nat, limit: int, window: nat)
    requires k < |history|
  {
    |Within(history[..k + 1], history[k] - window as real, history[k])| <= limit
  }

  /** In an ordered history the requests of a window are a suffix. */
  lemma {:induction false} WithinSuffix(history: seq<real>, p: nat, from: real, to: real)
    requires p <= |history|
    requires forall i :: 0 <= i < p ==> history[i] <= from
    requires forall i :: p <= i < |history| ==> from < history[i] <= to
    ensures Within(history, from, to) == history[p..]
  {
    assert history == history[..p] + history[p..];
    WithinAppend(history[..p], history[p..], from, to);
    WithinNone(history[..p], from, to);
    WithinAll(history[p..], from, to);
  }

  /** The first index of an ordered history behind a given time. */
  lemma {:induction false} Split(history: seq<real>, from: real) returns (p: nat)
    requires Ordered(history)
    ensures p <= |history| && forall i :: 0 <= i < |history| ==> (i < p <==> history[i] <= from)
  {
    if history == [] {
      p := 0;
    } else {
      var m := |history| - 1;
      p := Split(history[..m], from);
      assert forall i :: 0 <= i < m ==> history[..m][i] == history[i];
      assert p < m ==> from < history[..m][p] <= history[m];
      if p == m && history[m] <= from {
        p := m + 1;
      }
    }
  }

  /** Request k is admitted exactly when it is among the first `limit` requests or at least a
      window later than the request `limit` places before it, rejected requests counted; with a
      limit of zero or less nothing is admitted. */
  lemma AdmitExactly(history: seq<real>, k: nat, limit: int, window: nat)
    requires Ordered(history) && k < |history|
    ensures limit > 0 ==> (AdmittedAt(history, k, limit, window) <==>
              k < limit || history[k] - history[k - limit] >= window as real)
    ensures limit <= 0 && window > 0 ==> !AdmittedAt(history, k, limit, window)
  {
    var h, from := history[..k + 1], history[k] - window as real;
    var p := Split(h, from);
    WithinSuffix(h, p, from, history[k]);
  }

  /** Requests i < n that lie in (from, to] and were admitted. */
  ghost function AdmittedCount(history: seq<real>, n: nat, from: real, to: real, limit: int, window: nat): nat
    requires n <= |history|
  {
    if n == 0 then 0
    else
      AdmittedCount(history, n - 1, from, to, limit, window) +
      if from < history[n - 1] <= to && AdmittedAt(history, n - 1, limit, window) then 1 else 0
  }

  lemma {:induction false} CountWithin(history: seq<real>, n: nat, from: real, to: real, limit: int, window: nat,
                                       from': real, to': real)
    requires n <= |history| && from' <= from && forall i :: 0 <= i < n ==> history[i] <= to'
    ensures AdmittedCount(history, n, from, to, limit, window) <= |Within(history[..n], from', to')|
  {
    if n > 0 {
      CountWithin(history, n - 1, from, to, limit, window, from', to');
      assert history[..n][..n - 1] == history[..n - 1];
    }
  }

  /** No interval of the length of the window contains more than `limit` admitted requests. */
  lemma {:induction false} NeverMoreThanLimit(history: seq<real>, n: nat, t: real, limit: nat, window: nat)
    requires Ordered(history) && n <= |history|
    ensures AdmittedCount(history, n, t - window as real, t, limit, window) <= limit
  {
    if n > 0 {
      var now := history[n - 1];
      if t - window as real < now <= t && AdmittedAt(history, n - 1, limit, window) {
        CountWithin(history, n, t - window as real, t, limit, window, now - window as real, now);
      } else {
        NeverMoreThanLimit(history, n - 1, t, limit, window);
      }
    }
  }

  /** A caller that was silent for a whole window is admitted. */
  lemma SilenceRecovers(history: seq<real>, k: nat, limit: nat, window: nat)
    requires Ordered(history) && k < |history| && limit > 0
    requires k > 0 ==> history[k] - history[k - 1] >= window as real
    ensures AdmittedAt(history, k, limit, window)
  {
    AdmitExactly(history, k, limit, window);
  }

  lemma {:induction false} WithinBounds(history: seq<real>, from: real, to: real)
    ensures forall i :: 0 <= i < |Within(history, from, to)| ==> from < Within(history, from, to)[i] <= to
  {
    if history != [] {
      WithinBounds(history[..|history| - 1], from, to);
    }
  }

  /** The first request of the window ending at the last request of a history. */
  lemma OldestInWindow(history: seq<real>, k: nat, window: nat)
    requires k + 1 == |history| && window > 0
    ensures var w := Within(history, history[k] - window as real, history[k]);
            w != [] && history[k] - window as real < w[0] <= history[k]
  {
    WithinBounds(history, history[k] - window as real, history[k]);
    var w := Within(history, history[k] - window as real, history[k]);
    assert w[|Within(history[..k], history[k] - window as real, history[k])|] == history[k];
  }

  lemma LastIsLatest(history: seq<real>)
    requires Ordered(history) && history != []
    ensures forall i :: 0 <= i < |history| ==> history[i] <= history[|history| - 1]
  {
  }

  /** Request j is the first one after `from`. */
  ghost predicate Earliest(history: seq<real>, from: real, j: int) {
    0 <= j < |history| && from < history[j] &&
    forall i :: 0 <= i < |history| && from < history[i] ==> history[j] <= history[i]
  }

  lemma EarliestAtSplit(history: seq<real>, from: real, p: nat)
    requires Ordered(history) && p < |history|
    requires forall i :: 0 <= i < |history| ==> (i < p <==> history[i] <= from)
    ensures Earliest(history, from, p)
  {
    forall i | 0 <= i < |history| && from < history[i] ensures history[p] <= history[i] {
      assert p <= i;
    }
  }

  /** It is the earliest request that is still in the window. */
  lemma OldestIsEarliest(history: seq<real>, k: nat, window: nat) returns (j: nat)
    requires Ordered(history) && k + 1 == |history| && window > 0
    ensures j <= k && history[k] - window as real < history[j]
    ensures forall i :: 0 <= i < |history| && history[k] - window as real < history[i] ==> history[j] <= history[i]
    ensures var w := Within(history, history[k] - window as real, history[k]); w != [] && w[0] == history[j]
  {
    var from := history[k] - window as real;
    j := Split(history, from);
    assert history[k] > from;
    LastIsLatest(history);
    WithinSuffix(history, j, from, history[k]);
    EarliestAtSplit(history, from, j);
  }

  /** Following the advice is not always enough: after request k is rejected and the caller
      waits exactly as long as told, the next request is admitted if and only if the request
      `limit` - 1 places before the rejected one has left the window by then as well. */
  lemma AdviceSufficesExactly(history: seq<real>, k: nat, limit: nat, window: nat)
    requires Ordered(history) && k + 1 == |history| && limit > 0 && window > 0
    requires !AdmittedAt(history, k, limit, window)
    ensures k >= limit
    ensures var now := history[k];
            var inWindow := Within(history, now - window as real, now);
            inWindow != [] &&
            var wait := RetryAfter(window, now, inWindow[0]) as real;
            AdmittedAt(history + [now + wait], k + 1, limit, window) <==>
              history[k + 1 - limit] <= now + wait - window as real
  {
    AdmitExactly(history, k, limit, window);
    OldestInWindow(history, k, window);
    var oldest := Within(history, history[k] - window as real, history[k])[0];
    AdmitExactly(history + [history[k] + RetryAfter(window, history[k], oldest) as real], k + 1, limit, window);
  }

  /** With one request per minute allowed, a caller rejected at second 1 is told to wait 59
      seconds and is rejected again at second 60. */
  lemma AdviceCanFail()
    ensures var history := [0.0, 1.0];
            !AdmittedAt(history, 1, 1, 60) && RetryAfter(60, 1.0, 0.0) == 59 &&
            !AdmittedAt(history + [60.0], 2, 1, 60)
  {
    AdmitExactly([0.0, 1.0], 1, 1, 60);
    AdmitExactly([0.0, 1.0] + [60.0], 2, 1, 60);
  }

  lemma NowKept(history: seq<real>, scores: seq<real>, from: real, now: real)
    requires from < now && Pruned(scores, from) == Within(history, from, now)
    ensures Pruned(scores + [now], from) == Within(history + [now], from, now)
  {
  }

  /** The sorted set holds exactly the requests of the window that ends at the last request,
      rejected requests included, and the key expires when the last of them leaves it. */
  ghost predicate Holds(history: seq<real>, scores: seq<real>, expires: real, window: nat) {
    window > 0 && Ordered(history) && (forall i :: 0 <= i < |history| ==> 0.0 <= history[i]) &&
    if history == [] then scores == []
    else
      var last := history[|history| - 1];
      expires == last + window as real && scores == Within(history, last - window as real, last)
  }

  /** A request may not be earlier than the one before. */
  ghost predicate NotBefore(history: seq<real>, now: real) {
    0.0 <= now && (history != [] ==> history[|history| - 1] <= now)
  }

  lemma OrderedSnoc(history: seq<real>, now: real)
    requires Ordered(history) && NotBefore(history, now) && forall i :: 0 <= i < |history| ==> 0.0 <= history[i]
    ensures Ordered(history + [now]) && forall i :: 0 <= i < |history + [now]| ==> 0.0 <= (history + [now])[i] <= now
  {
  }

  /** What pruning leaves of the previous requests while the key is there. */
  lemma LiveKept(history: seq<real>, last: real, window: nat, now: real)
    requires last <= now && forall i :: 0 <= i < |history| ==> 0.0 <= history[i] <= last
    ensures Pruned(Within(history, last - window as real, last), now - window as real) ==
              Within(history, now - window as real, now)
  {
    PrunedWindow(history, last - window as real, now - window as real, last, now);
  }

  lemma LiveScoresKept(history: seq<real>, scores: seq<real>, window: nat, now: real)
    requires Ordered(history) && history != [] && NotBefore(history, now)
    requires forall i :: 0 <= i < |history| ==> 0.0 <= history[i]
    requires var last := history[|history| - 1]; scores == Within(history, last - window as real, last)
    ensures Pruned(scores, now - window as real) == Within(history, now - window as real, now)
  {
    LastIsLatest(history);
    LiveKept(history, history[|history| - 1], window, now);
  }

  /** After the expiry of the key no previous request is in the window. */
  lemma ExpiredKept(history: seq<real>, last: real, window: nat, now: real)
    requires last + window as real <= now && forall i :: 0 <= i < |history| ==> history[i] <= last
    ensures Within(history, now - window as real, now) == []
  {
    WithinNone(history, now - window as real, now);
  }

  /** The same whether or not the key had expired. */
  lemma WindowKept(history: seq<real>, scores: seq<real>, expires: real, window: nat, now: real, kept: seq<real>)
    requires Holds(history, scores, expires, window) && NotBefore(history, now)
    requires kept == if expires <= now then [] else scores
    ensures Pruned(kept, now - window as real) == Within(history, now - window as real, now)
  {
    if history == [] {
    } else if expires <= now {
      LastIsLatest(history);
      ExpiredKept(history, history[|history| - 1], window, now);
    } else {
      LiveScoresKept(history, scores, window, now);
    }
  }

  lemma HoldsAt(h: seq<real>, scores: seq<real>, window: nat, now: real)
    requires window > 0 && Ordered(h) && (forall i :: 0 <= i < |h| ==> 0.0 <= h[i])
    requires h != [] && h[|h| - 1] == now && scores == Within(h, now - window as real, now)
    ensures Holds(h, scores, now + window as real, window)
  {
  }

  lemma RecordHolds(history: seq<real>, scores: seq<real>, expires: real, window: nat, now: real, kept: seq<real>)
    requires Holds(history, scores, expires, window) && NotBefore(history, now)
    requires kept == if expires <= now then [] else scores
    ensures Holds(history + [now], Pruned(kept + [now], now - window as real), now + window as real, window)
  {
    WindowKept(history, scores, expires, window, now, kept);
    RecordedHolds(history, window, now, kept);
  }

  lemma RecordedHolds(history: seq<real>, window: nat, now: real, kept: seq<real>)
    requires Ordered(history) && NotBefore(history, now) && window > 0
    requires forall i :: 0 <= i < |history| ==> 0.0 <= history[i]
    requires Pruned(kept, now - window as real) == Within(history, now - window as real, now)
    ensures Holds(history + [now], Pruned(kept + [now], now - window as real), now + window as real, window)
  {
    NowKept(history, kept, now - window as real, now);
    OrderedSnoc(history, now);
    HoldsAt(history + [now], Pruned(kept + [now], now - window as real), window, now);
  }

  /** What the size and the first element of the sorted set say. */
  lemma DecisionHolds(history: seq<real>, scores: seq<real>, expires: real, window: nat, limit: int)
    requires Holds(history, scores, expires, window) && history != []
    ensures var k := |history| - 1;
            (|scores| <= limit <==> AdmittedAt(history, k, limit, window)) &&
            scores != [] && 1 <= RetryAfter(window, history[k], scores[0]) <= window
  {
    var k := |history| - 1;
    assert history[..k + 1] == history;
    OldestInWindow(history, k, window);
    RetryAfterLeast(window, history[k], scores[0]);
  }

  class SlidingWindow {
    const window: nat
    var scores: seq<real>         // the sorted set, in ascending order
    var expires: real             // when the key disappears unless it is touched
    ghost var history: seq<real>  // the times of all requests ever made

    ghost predicate Valid()
      reads this
    {
      Holds(history, scores, expires, window)
    }

    constructor (window: nat)
      requires window > 0
      ensures Valid() && history == [] && this.window == window
    {
      this.window := window;
      scores, history := [], [];
      expires := 0.0;
    }

    /** The commands of one request: ZADD, ZREMRANGEBYSCORE, EXPIRE. */
    method Record(now: real)
      requires Valid() && NotBefore(history, now)
      modifies this
      ensures Valid() && history == old(history) + [now]
    {
      var kept := scores;
      if expires <= now {
        kept := [];    // the server has dropped the key
      }
      RecordHolds(history, scores, expires, window, now, kept);
      scores := Pruned(kept + [now], now - window as real);
      expires := now + window as real;
      history := history + [now];
    }

    /** `_hit`: 0 admits, a positive number is the advice for a rejected caller. */
    method Hit(now: real, limit: int) returns (retry: int)
      requires Valid() && NotBefore(history, now)
      modifies this
      ensures Valid() && history == old(history) + [now]
      ensures retry == 0 <==> AdmittedAt(history, |history| - 1, limit, window)
      ensures retry != 0 ==> scores != [] && 1 <= retry <= window && retry == RetryAfter(window, now, scores[0])
    {
      Record(now);
      DecisionHolds(history, scores, expires, window, limit);
      var count := |scores|;
      if count <= limit {
        return 0;
      }
      if scores == [] {
        assert false;    // the request just recorded is in the window
      }
      retry := Max(1, Ceil(window as real - (now - scores[0])));
    }

    /** `enforce`: a rejected caller gets the advice as its error. */
    method Enforce(now: real, limit: int) returns (v: Verdict)
      requires Valid() && NotBefore(history, now)
      modifies this
      ensures Valid() && history == old(history) + [now]
      ensures v == Admitted <==> AdmittedAt(history, |history| - 1, limit, window)
      ensures v.Rejected? ==> scores != [] && v.retryAfter == RetryAfter(window, now, scores[0])
    {
      var retry := Hit(now, limit);
      if retry != 0 {
        return Rejected(retry);
      }
      return Admitted;
    }
  }
}
