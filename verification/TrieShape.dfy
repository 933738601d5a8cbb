/** The shape both matchers share: numbered nodes, one per trie path. `goto[n]` holds the
    children of node `n`, `name[n]` its path and `at` the number of every path. */
module TrieShape {
  import opened Words

  type Edges = seq<map<char, nat>>

  ghost predicate IsChild(name: seq<string>, n: nat, c: char, m: nat) {
    n < |name| && 0 < m < |name| && name[m] == name[n] + [c]
  }

  /** Node `m` hangs under the node of its path without the last character. */
  ghost predicate HasParent(goto: Edges, name: seq<string>, at: map<string, nat>, m: nat) {
    m < |name| && name[m] != [] &&
    var up, c := name[m][..|name[m]| - 1], name[m][|name[m]| - 1];
    up in at && at[up] < |goto| && c in goto[at[up]] && goto[at[up]][c] == m
  }

  ghost predicate Tree(goto: Edges, name: seq<string>, at: map<string, nat>) {
    |goto| == |name| > 0 && name[0] == [] &&
    (forall n :: 0 <= n < |name| ==> name[n] in at && at[name[n]] == n) &&
    (forall p :: p in at ==> at[p] < |name| && name[at[p]] == p) &&
    (forall n, c :: 0 <= n < |goto| && c in goto[n] ==> IsChild(name, n, c, goto[n][c])) &&
    (forall m {:trigger HasParent(goto, name, at, m)} :: 0 < m < |name| ==> HasParent(goto, name, at, m))
  }

  /** The nodes of a trie are exactly the paths of the dictionary. */
  ghost predicate Spans(at: map<string, nat>, words: set<string>) {
    forall p :: p in at <==> IsPath(words, p)
  }

  /** With the prefixes of one more word the nodes span the larger dictionary. */
  lemma SpansMore(before: map<string, nat>, after: map<string, nat>, words: set<string>, word: string)
    requires Spans(before, words) && after.Keys == before.Keys + Prefixes(word, |word|)
    ensures Spans(after, words + {word})
  {
    forall p ensures p in after <==> IsPath(words + {word}, p) {
      PathsOfMore(words, word, p);
    }
  }

  lemma Snoc(p: string, c: char)
    ensures (p + [c])[..|p + [c]| - 1] == p && (p + [c])[|p + [c]| - 1] == c
  {
  }

  /** A child exists under a character exactly when the extended path has a node. */
  lemma Follow(goto: Edges, name: seq<string>, at: map<string, nat>, n: nat, c: char)
    requires Tree(goto, name, at) && n < |goto|
    ensures c in goto[n] <==> name[n] + [c] in at
    ensures c in goto[n] ==> IsChild(name, n, c, goto[n][c]) && goto[n][c] == at[name[n] + [c]]
  {
    var q := name[n] + [c];
    Snoc(name[n], c);
    if q in at {
      assert HasParent(goto, name, at, at[q]);
    }
  }

  /** Hanging a fresh leaf under node `n` keeps the shape. */
  lemma Grow(goto: Edges, name: seq<string>, at: map<string, nat>, n: nat, c: char)
    requires Tree(goto, name, at) && n < |goto| && c !in goto[n]
    ensures var m, q := |goto|, name[n] + [c];
            Tree((goto + [map[]])[n := goto[n][c := m]], name + [q], at[q := m])
  {
    var m, q := |goto|, name[n] + [c];
    var goto', name', at' := (goto + [map[]])[n := goto[n][c := m]], name + [q], at[q := m];
    Follow(goto, name, at, n, c);
    Snoc(name[n], c);
    forall k | 0 < k < |name'| ensures HasParent(goto', name', at', k) {
      if k < m { assert HasParent(goto, name, at, k); }
    }
    forall k, d | 0 <= k < |goto'| && d in goto'[k]
      ensures IsChild(name', k, d, goto'[k][d])
    {
      if k < m && !(k == n && d == c) {
        assert IsChild(name, k, d, goto[k][d]);
      }
    }
  }

  // ----- the breadth-first order

  ghost function Members(s: seq<nat>): set<nat> {
    set m | m in s
  }

  /** The nodes whose values are final: the root, the nodes taken out and those queued. */
  ghost function Seen(queue: seq<nat>, done: set<nat>): set<nat> {
    {0} + done + Members(queue)
  }

  lemma SeenMore(seen: set<nat>, kids: seq<nat>, m: nat)
    ensures seen + Members(kids) + {m} == seen + Members(kids + [m])
  {
  }

  lemma SeenNext(queue: seq<nat>, done: set<nat>, kids: seq<nat>)
    requires queue != []
    ensures Seen(queue[1..] + kids, done + {queue[0]}) == Seen(queue, done) + Members(kids)
  {
  }

  /** The parent of node `m` (0 for the root itself). */
  ghost function Up(name: seq<string>, at: map<string, nat>, m: nat): nat
    requires m < |name|
  {
    if name[m] == [] then 0 else
      var p := name[m][..|name[m]| - 1];
      if p in at then at[p] else 0
  }

  lemma ChildUp(goto: Edges, name: seq<string>, at: map<string, nat>, n: nat, c: char)
    requires Tree(goto, name, at) && n < |goto| && c in goto[n]
    ensures IsChild(name, n, c, goto[n][c]) && Up(name, at, goto[n][c]) == n
  {
  }

  lemma UpChild(goto: Edges, name: seq<string>, at: map<string, nat>, m: nat) returns (c: char)
    requires Tree(goto, name, at) && 0 < m < |name|
    ensures Up(name, at, m) < |goto| && c in goto[Up(name, at, m)] && goto[Up(name, at, m)][c] == m
    ensures |name[m]| == |name[Up(name, at, m)]| + 1
  {
    assert HasParent(goto, name, at, m);
    c := name[m][|name[m]| - 1];
  }

  /** `kids` lists every child of node `n` once. */
  ghost predicate Children(name: seq<string>, at: map<string, nat>, n: nat, kids: seq<nat>) {
    (forall i, j :: 0 <= i < j < |kids| ==> kids[i] != kids[j]) &&
    (forall m :: m in kids <==> 0 < m < |name| && Up(name, at, m) == n)
  }

  /** `kids` are the children of `n` under the characters handled so far, each once. */
  ghost predicate Listed(goto: Edges, n: nat, chars: set<char>, kids: seq<nat>)
    requires n < |goto|
  {
    chars <= goto[n].Keys &&
    (forall i, j :: 0 <= i < j < |kids| ==> kids[i] != kids[j]) &&
    (forall c :: c in chars ==> goto[n][c] in kids) &&
    (forall m :: m in kids ==> ChildUnder(goto, n, chars, m))
  }

  ghost predicate ChildUnder(goto: Edges, n: nat, chars: set<char>, m: nat)
    requires n < |goto| && chars <= goto[n].Keys
  {
    exists c :: c in chars && goto[n][c] == m
  }

  lemma ListMore(goto: Edges, name: seq<string>, at: map<string, nat>, n: nat,
                 chars: set<char>, kids: seq<nat>, c: char)
    requires Tree(goto, name, at) && n < |goto|
    requires Listed(goto, n, chars, kids) && c in goto[n] && c !in chars
    ensures Listed(goto, n, chars + {c}, kids + [goto[n][c]])
  {
    var x, chars' := goto[n][c], chars + {c};
    forall m | m in kids ensures m != x && ChildUnder(goto, n, chars', m) {
      var d :| d in chars && goto[n][d] == m;
      assert IsChild(name, n, c, x) && IsChild(name, n, d, m);
      Snoc(name[n], c);
      Snoc(name[n], d);
      assert d in chars';
    }
    assert c in chars' && ChildUnder(goto, n, chars', x);
    assert forall i :: 0 <= i < |kids| ==> kids[i] in kids;
  }

  lemma ListedAll(goto: Edges, name: seq<string>, at: map<string, nat>, n: nat, kids: seq<nat>)
    requires Tree(goto, name, at) && n < |goto| && Listed(goto, n, goto[n].Keys, kids)
    ensures Children(name, at, n, kids)
  {
    forall m | m in kids ensures 0 < m < |name| && Up(name, at, m) == n {
      assert ChildUnder(goto, n, goto[n].Keys, m);
      var c :| c in goto[n] && goto[n][c] == m;
      ChildUp(goto, name, at, n, c);
    }
    forall m | 0 < m < |name| && Up(name, at, m) == n ensures m in kids {
      var c := UpChild(goto, name, at, m);
    }
  }

  /** The queue holds nodes not yet taken out, each once, ordered by depth and spanning at
      most two levels. */
  ghost predicate Ordered(name: seq<string>, queue: seq<nat>, done: set<nat>) {
    (forall m :: m in done ==> 0 < m < |name|) &&
    (forall i :: 0 <= i < |queue| ==> 0 < queue[i] < |name| && queue[i] !in done) &&
    (forall i, j :: 0 <= i < j < |queue| ==>
      queue[i] != queue[j] && |name[queue[i]]| <= |name[queue[j]]|) &&
    (forall i :: 0 <= i < |queue| ==> |name[queue[i]]| <= |name[queue[0]]| + 1)
  }

  /** Queue and `done` hold exactly the children of the root and of the nodes in `done`. */
  ghost predicate Closed(name: seq<string>, at: map<string, nat>, queue: seq<nat>, done: set<nat>) {
    forall m :: 0 < m < |name| ==>
      ((m in done || m in queue) <==> (Up(name, at, m) == 0 || Up(name, at, m) in done))
  }

  /** No node of the queue's first level, or above it, is missing. */
  ghost predicate LevelFull(name: seq<string>, queue: seq<nat>, done: set<nat>) {
    queue != [] && queue[0] < |name| ==>
      forall m :: 0 < m < |name| && |name[m]| <= |name[queue[0]]| ==> m in done || m in queue
  }

  /** The state of the breadth-first walk; `done` are the nodes already taken out. */
  ghost predicate Frontier(name: seq<string>, at: map<string, nat>, queue: seq<nat>, done: set<nat>) {
    Ordered(name, queue, done) && Closed(name, at, queue, done) && LevelFull(name, queue, done)
  }

  lemma FrontierStart(goto: Edges, name: seq<string>, at: map<string, nat>, queue: seq<nat>)
    requires Tree(goto, name, at) && Children(name, at, 0, queue)
    ensures Frontier(name, at, queue, {})
  {
    forall m | 0 < m < |name|
      ensures m in queue ==> |name[m]| == 1
      ensures |name[m]| == 1 ==> m in queue
    {
      var c := UpChild(goto, name, at, m);
      assert at[name[Up(name, at, m)]] == Up(name, at, m);
    }
    forall i | 0 <= i < |queue| ensures 0 < queue[i] < |name| && |name[queue[i]]| == 1 {
      assert queue[i] in queue;
    }
  }

  /** Every node is reached: with an empty queue nothing is left over. */
  lemma {:induction false} FrontierEnd(goto: Edges, name: seq<string>, at: map<string, nat>, done: set<nat>, m: nat)
    requires Tree(goto, name, at) && Frontier(name, at, [], done) && 0 < m < |name|
    ensures m in done
    decreases |name[m]|
  {
    var c := UpChild(goto, name, at, m);
    if Up(name, at, m) != 0 {
      FrontierEnd(goto, name, at, done, Up(name, at, m));
    }
  }

  /** The children of the node in front are new and one level deeper. */
  lemma KidsAreNew(goto: Edges, name: seq<string>, at: map<string, nat>,
                   queue: seq<nat>, done: set<nat>, kids: seq<nat>)
    requires Tree(goto, name, at) && Frontier(name, at, queue, done) && queue != []
    requires Children(name, at, queue[0], kids)
    ensures forall m :: m in kids ==>
              0 < m < |name| && |name[m]| == |name[queue[0]]| + 1 && m !in done && m !in queue
  {
  }

  lemma OrderedStep(name: seq<string>, queue: seq<nat>, done: set<nat>, kids: seq<nat>)
    requires Ordered(name, queue, done) && queue != []
    requires forall i, j :: 0 <= i < j < |kids| ==> kids[i] != kids[j]
    requires forall m :: m in kids ==>
               0 < m < |name| && |name[m]| == |name[queue[0]]| + 1 && m !in done && m !in queue
    ensures Ordered(name, queue[1..] + kids, done + {queue[0]})
  {
    var n, depth, next := |queue| - 1, |name[queue[0]]|, queue[1..] + kids;
    forall i | 0 <= i < |next|
      ensures 0 < next[i] < |name| && next[i] !in done + {queue[0]} && depth <= |name[next[i]]| <= depth + 1
    {
      if i < n {
        assert next[i] == queue[i + 1];
      } else {
        assert next[i] == kids[i - n] && kids[i - n] in kids;
      }
    }
    forall i, j | 0 <= i < j < |next| ensures next[i] != next[j] && |name[next[i]]| <= |name[next[j]]| {
      if j < n {
        assert next[i] == queue[i + 1] && next[j] == queue[j + 1];
      } else if i < n {
        assert next[i] == queue[i + 1] && next[j] == kids[j - n];
        assert next[i] in queue && next[j] in kids;
      } else {
        assert next[i] == kids[i - n] && next[j] == kids[j - n];
        assert next[i] in kids && next[j] in kids;
      }
    }
  }

  lemma LevelStep(goto: Edges, name: seq<string>, at: map<string, nat>,
                  queue: seq<nat>, done: set<nat>, kids: seq<nat>)
    requires Tree(goto, name, at) && Ordered(name, queue, done) && LevelFull(name, queue, done)
    requires queue != [] && Children(name, at, queue[0], kids)
    requires Closed(name, at, queue[1..] + kids, done + {queue[0]})
    requires Ordered(name, queue[1..] + kids, done + {queue[0]})
    ensures LevelFull(name, queue[1..] + kids, done + {queue[0]})
  {
    var queue', done' := queue[1..] + kids, done + {queue[0]};
    if queue' != [] {
      assert queue'[0] in queue';
      forall m | 0 < m < |name| && |name[m]| <= |name[queue'[0]]| ensures m in done' || m in queue' {
        var c := UpChild(goto, name, at, m);
      }
    }
  }

  /** Taking the first node out and appending its children. */
  lemma FrontierStep(goto: Edges, name: seq<string>, at: map<string, nat>,
                     queue: seq<nat>, done: set<nat>, kids: seq<nat>)
    requires Tree(goto, name, at) && Frontier(name, at, queue, done) && queue != []
    requires Children(name, at, queue[0], kids)
    ensures Frontier(name, at, queue[1..] + kids, done + {queue[0]})
  {
    KidsAreNew(goto, name, at, queue, done, kids);
    OrderedStep(name, queue, done, kids);
    assert forall m :: m in queue <==> m == queue[0] || m in queue[1..];
    LevelStep(goto, name, at, queue, done, kids);
  }
}
