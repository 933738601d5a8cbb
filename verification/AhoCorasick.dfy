/** The automaton filter: numbered trie nodes with fail links built breadth-first, and one
    pass over the text that never moves back. */
module AhoCorasick {
  import opened Basics
  import opened Text
  import opened Words
  import opened HitMerge
  import opened Matching
  import opened TrieShape

  /** The fail link of a node leads to the longest proper suffix of its path that is a path. */
  ghost predicate FailRight(words: set<string>, name: seq<string>, fail: seq<nat>, m: nat) {
    m < |name| && m < |fail| && fail[m] < |name| &&
    if name[m] == [] then fail[m] == 0 else name[fail[m]] == Longest(words, name[m][1..])
  }

  /** The out value of a node is the length of the longest word that is a suffix of its path. */
  ghost predicate OutRight(words: set<string>, name: seq<string>, out: seq<nat>, m: nat) {
    m < |name| && m < |out| && out[m] == LongestSuffix(words, name[m])
  }

  ghost predicate Right(words: set<string>, name: seq<string>, fail: seq<nat>, out: seq<nat>, m: nat) {
    FailRight(words, name, fail, m) && OutRight(words, name, out, m)
  }

  /** What is known of a node before the breadth-first pass, values of earlier passes included. */
  ghost predicate Stale(words: set<string>, name: seq<string>, fail: seq<nat>, out: seq<nat>, m: nat) {
    m < |name| && m < |fail| && m < |out| && fail[m] < |name| &&
    (|name[m]| <= 1 ==> fail[m] == 0) &&
    out[m] <= LongestSuffix(words, name[m]) && (name[m] in words ==> out[m] == |name[m]|)
  }

  ghost predicate AllStale(words: set<string>, name: seq<string>, fail: seq<nat>, out: seq<nat>) {
    |name| == |fail| == |out| &&
    forall m {:trigger Stale(words, name, fail, out, m)} :: 0 <= m < |name| ==> Stale(words, name, fail, out, m)
  }

  ghost predicate AllRight(words: set<string>, name: seq<string>, fail: seq<nat>, out: seq<nat>) {
    |name| == |fail| == |out| &&
    forall m {:trigger Right(words, name, fail, out, m)} :: 0 <= m < |name| ==> Right(words, name, fail, out, m)
  }

  /** Half-way through the pass: the nodes in `seen` are finished, the others untouched. */
  ghost predicate Fits(words: set<string>, name: seq<string>, fail: seq<nat>, out: seq<nat>,
                       seen: set<nat>, m: nat)
  {
    if m in seen then Right(words, name, fail, out, m) else Stale(words, name, fail, out, m)
  }

  ghost predicate Progress(words: set<string>, name: seq<string>, fail: seq<nat>, out: seq<nat>,
                           seen: set<nat>)
  {
    |name| == |fail| == |out| &&
    forall m {:trigger Fits(words, name, fail, out, seen, m)} ::
      0 <= m < |name| ==> Fits(words, name, fail, out, seen, m)
  }

  lemma ProgressOne(words: set<string>, name: seq<string>, fail: seq<nat>, out: seq<nat>,
                    seen: set<nat>, n: nat, f: nat, o: nat)
    requires Progress(words, name, fail, out, seen) && n < |name|
    requires Right(words, name, fail[n := f], out[n := o], n)
    ensures Progress(words, name, fail[n := f], out[n := o], seen + {n})
  {
    var fail', out', seen' := fail[n := f], out[n := o], seen + {n};
    forall m | 0 <= m < |name| ensures Fits(words, name, fail', out', seen', m) {
      assert Fits(words, name, fail, out, seen, m);
    }
  }

  /** The values a finished pass leaves behind are a valid starting point for the next one. */
  lemma RightIsStale(words: set<string>, goto: Edges, name: seq<string>, at: map<string, nat>,
                     fail: seq<nat>, out: seq<nat>)
    requires Tree(goto, name, at) && AllRight(words, name, fail, out)
    ensures AllStale(words, name, fail, out)
  {
    forall m | 0 <= m < |name| ensures Stale(words, name, fail, out, m) {
      assert Right(words, name, fail, out, m);
      if |name[m]| == 1 {
        assert name[m][1..] == [];
        assert at[name[fail[m]]] == fail[m] && at[name[0]] == 0;
      }
    }
  }

  /** A node of depth at most one needs no pass. */
  lemma ShallowRight(words: set<string>, name: seq<string>, fail: seq<nat>, out: seq<nat>, m: nat)
    requires Stale(words, name, fail, out, m) && |name[m]| <= 1 && name[0] == []
    ensures Right(words, name, fail, out, m)
  {
  }

  /** The values written for one child of `cur`: its link target is the longest proper suffix
      path, is shorter than the child's own path, and carries the longest match. */
  lemma LinkRight(words: set<string>, goto: Edges, name: seq<string>, at: map<string, nat>,
                  fail: seq<nat>, out: seq<nat>, cur: nat, c: char, f: nat)
    requires Tree(goto, name, at) && 0 < cur < |name| && c in goto[cur]
    requires Right(words, name, fail, out, cur) && OutRight(words, name, out, f)
    requires Stale(words, name, fail, out, goto[cur][c])
    requires name[f] == Longest(words, name[fail[cur]] + [c])
    ensures var nxt := goto[cur][c];
            nxt < |name| && name[nxt] == name[cur] + [c] && |name[f]| < |name[nxt]| &&
            name[f] == Longest(words, name[nxt][1..]) &&
            Max(out[nxt], out[f]) == LongestSuffix(words, name[nxt])
  {
    assert IsChild(name, cur, c, goto[cur][c]);
    assert name[cur] != [] by { assert at[name[cur]] == cur && at[name[0]] == 0; }
    ChildValues(words, name[cur], c);
  }

  class ACFilter {
    var goto: Edges
    var fail: seq<nat>
    var out: seq<nat>
    ghost var words: set<string>      // the normalised words loaded so far
    ghost var name: seq<string>       // the path of every node
    ghost var at: map<string, nat>    // the node of every path

    /** A trie over `words` whose fail and out values may be out of date. */
    ghost predicate Loading()
      reads this
    {
      Normal(words) && Tree(goto, name, at) && Spans(at, words) && AllStale(words, name, fail, out)
    }

    /** The automaton is complete. */
    ghost predicate Valid()
      reads this
    {
      Normal(words) && Tree(goto, name, at) && Spans(at, words) && AllRight(words, name, fail, out)
    }

    /** `__init__`; no words given is the empty sequence. */
    constructor (raw: seq<string>)
      ensures Valid() && words == Normalised(raw)
    {
      goto := [map[]];
      fail := [0];
      out := [0];
      words := {};
      name := [[]];
      at := map[[] := 0];
      new;
      assert Right(words, name, fail, out, 0);
      Load(raw);
    }

    method Load(raw: seq<string>)
      requires Valid()
      modifies this
      ensures Valid() && words == old(words) + Normalised(raw)
    {
      RightIsStale(words, goto, name, at, fail, out);
      InsertAll(raw);
      Relink();
    }

    /** The first loop of `load`. */
    method InsertAll(raw: seq<string>)
      requires Loading()
      modifies this`goto, this`fail, this`out, this`words, this`name, this`at
      ensures Loading() && words == old(words) + Normalised(raw)
    {
      for i := 0 to |raw|
        invariant Loading() && words == old(words) + Normalised(raw[..i])
      {
        var word := Normalise(raw[i]);
        NormalisedSnoc(raw, i);
        if word != [] {
          Insert(word);
        }
      }
      assert raw[..|raw|] == raw;
    }

    /** One word of `load`: walk or grow its path, then record its own length. */
    method Insert(word: string)
      requires Loading() && word != [] && Lower(word) == word
      modifies this`goto, this`fail, this`out, this`words, this`name, this`at
      ensures Loading() && words == old(words) + {word}
    {
      var node := Walk(word);
      MarkEnd(word, node);
      SpansMore(old(at), at, old(words), word);
    }

    method Walk(word: string) returns (node: nat)
      requires Loading()
      modifies this`goto, this`fail, this`out, this`name, this`at
      ensures Tree(goto, name, at) && AllStale(words, name, fail, out)
      ensures at.Keys == old(at.Keys) + Prefixes(word, |word|)
      ensures node < |name| && name[node] == word
    {
      node := 0;
      assert word[..0] == [];
      for j := 0 to |word|
        invariant Tree(goto, name, at) && AllStale(words, name, fail, out)
        invariant at.Keys == old(at.Keys) + Prefixes(word, j)
        invariant node < |name| && name[node] == word[..j]
      {
        PrefixesSnoc(word, j);
        Follow(goto, name, at, node, word[j]);
        if word[j] in goto[node] {
          node := goto[node][word[j]];
        } else {
          node := AddLeaf(node, word[j]);
        }
      }
      assert word[..|word|] == word;
    }

    method AddLeaf(node: nat, c: char) returns (nxt: nat)
      requires Tree(goto, name, at) && AllStale(words, name, fail, out)
      requires node < |goto| && c !in goto[node] && name[node] + [c] !in words
      modifies this`goto, this`fail, this`out, this`name, this`at
      ensures Tree(goto, name, at) && AllStale(words, name, fail, out)
      ensures at.Keys == old(at.Keys) + {old(name[node]) + [c]}
      ensures nxt < |name| && name[nxt] == old(name[node]) + [c]
    {
      Grow(goto, name, at, node, c);
      ghost var q := name[node] + [c];
      goto := goto + [map[]];
      fail := fail + [0];
      out := out + [0];
      nxt := |goto| - 1;
      var edges: map<char, nat> := goto[node][c := nxt];
      goto := goto[node := edges];
      at := at[q := nxt];
      name := name + [q];
      forall m | 0 <= m < |name| ensures Stale(words, name, fail, out, m) {
        assert m < nxt ==> Stale(words, old(name), old(fail), old(out), m);
      }
    }

    method MarkEnd(word: string, node: nat)
      requires Tree(goto, name, at) && AllStale(words, name, fail, out)
      requires node < |name| && name[node] == word != []
      modifies this`out, this`words
      ensures AllStale(words, name, fail, out) && words == old(words) + {word}
    {
      out := out[node := Max(out[node], |word|)];
      words := words + {word};
      forall m | 0 <= m < |name| ensures Stale(words, name, fail, out, m) {
        assert Stale(old(words), name, fail, old(out), m) && at[name[m]] == m;
        LongestSuffixMonotone(old(words), words, name[m]);
      }
      assert Stale(old(words), name, fail, old(out), node);
    }

    // ----- the breadth-first pass

    /** All fail links of nodes up to a depth are right. */
    ghost predicate FailsTo(depth: nat)
      reads this
    {
      |fail| == |name| &&
      forall m {:trigger FailRight(words, name, fail, m)} ::
        0 <= m < |name| && |name[m]| <= depth ==> FailRight(words, name, fail, m)
    }

    /** The inner loop shared by `load` and `filter`: follow fail links until the character can
        be read. Every link followed gives up at least one level of depth. */
    method Advance(start: nat, c: char) returns (node: nat, ghost links: nat)
      requires Tree(goto, name, at) && Spans(at, words)
      requires start < |name| && FailsTo(|name[start]|)
      ensures node < |name| && name[node] == Longest(words, name[start] + [c])
      ensures links + |name[node]| <= |name[start]| + 1
    {
      node, links := start, 0;
      while node != 0 && c !in goto[node]
        invariant node < |name| && links + |name[node]| <= |name[start]|
        invariant Longest(words, name[node] + [c]) == Longest(words, name[start] + [c])
        decreases |name[node]|
      {
        Follow(goto, name, at, node, c);
        assert name[node] != [] by { assert at[name[node]] == node && at[name[0]] == 0; }
        assert FailRight(words, name, fail, node);
        LongestFail(words, name[node], c);
        node, links := fail[node], links + 1;
      }
      Follow(goto, name, at, node, c);
      if c in goto[node] {
        node := goto[node][c];
      } else {
        assert (name[0] + [c])[1..] == [];
        node := 0;
      }
    }

    /** The values of `goto[n]`, in any order. */
    method ChildList(n: nat) returns (kids: seq<nat>)
      requires Tree(goto, name, at) && n < |goto|
      ensures Children(name, at, n, kids)
    {
      kids := [];
      var rest := goto[n].Keys;
      while rest != {}
        invariant rest <= goto[n].Keys
        invariant Listed(goto, n, goto[n].Keys - rest, kids)
        decreases rest
      {
        var c :| c in rest;
        ListMore(goto, name, at, n, goto[n].Keys - rest, kids, c);
        kids, rest := kids + [goto[n][c]], rest - {c};
        assert goto[n].Keys - rest == goto[n].Keys - (rest + {c}) + {c};
      }
      ListedAll(goto, name, at, n, kids);
    }

    /** Every node down to a depth is finished. */
    ghost predicate SeenTo(seen: set<nat>, depth: nat)
      reads this
    {
      forall m :: 0 <= m < |name| && |name[m]| <= depth ==> m in seen
    }

    lemma SeenFails(seen: set<nat>, depth: nat)
      requires Progress(words, name, fail, out, seen) && SeenTo(seen, depth)
      ensures forall d: nat :: d <= depth ==> FailsTo(d)
    {
      forall m | 0 <= m < |name| && |name[m]| <= depth ensures FailRight(words, name, fail, m) {
        assert Fits(words, name, fail, out, seen, m);
      }
    }

    /** The loop body of the breadth-first pass for one child. */
    method Link(cur: nat, c: char, nxt: nat, ghost seen: set<nat>)
      requires Tree(goto, name, at) && Spans(at, words) && Progress(words, name, fail, out, seen)
      requires 0 < cur < |name| && c in goto[cur] && nxt == goto[cur][c] && nxt !in seen
      requires SeenTo(seen, |name[cur]|)
      modifies this`fail, this`out
      ensures Progress(words, name, fail, out, seen + {nxt})
    {
      assert IsChild(name, cur, c, nxt);
      assert Fits(words, name, fail, out, seen, cur) && Fits(words, name, fail, out, seen, nxt);
      SeenFails(seen, |name[cur]|);
      var f, _ := Advance(fail[cur], c);
      assert Fits(words, name, fail, out, seen, f);
      LinkRight(words, goto, name, at, fail, out, cur, c, f);
      ProgressOne(words, name, fail, out, seen, nxt, f, Max(out[nxt], out[f]));
      fail := fail[nxt := f];
      if fail[nxt] == nxt {
        assert false;   // the link target is shorter than the node itself
      }
      out := out[nxt := Max(out[nxt], out[fail[nxt]])];
    }

    /** The inner `for` loop of the pass: all children of `cur`, in any order. */
    method LinkChildren(cur: nat, ghost seen: set<nat>) returns (kids: seq<nat>)
      requires Tree(goto, name, at) && Spans(at, words) && Progress(words, name, fail, out, seen)
      requires 0 < cur < |name| && SeenTo(seen, |name[cur]|)
      requires forall m :: 0 < m < |name| && Up(name, at, m) == cur ==> m !in seen
      modifies this`fail, this`out
      ensures Children(name, at, cur, kids)
      ensures Progress(words, name, fail, out, seen + Members(kids))
    {
      kids := [];
      assert seen + Members([]) == seen;
      var rest := goto[cur].Keys;
      while rest != {}
        invariant rest <= goto[cur].Keys && Listed(goto, cur, goto[cur].Keys - rest, kids)
        invariant Progress(words, name, fail, out, seen + Members(kids))
        decreases rest
      {
        var c :| c in rest;
        var nxt := goto[cur][c];
        ListMore(goto, name, at, cur, goto[cur].Keys - rest, kids, c);
        ChildUp(goto, name, at, cur, c);
        Link(cur, c, nxt, seen + Members(kids));
        SeenMore(seen, kids, nxt);
        assert goto[cur].Keys - (rest - {c}) == goto[cur].Keys - rest + {c};
        kids, rest := kids + [nxt], rest - {c};
      }
      ListedAll(goto, name, at, cur, kids);
    }

    /** The breadth-first pass of `load`. */
    method Relink()
      requires Loading()
      modifies this`fail, this`out
      ensures Valid()
    {
      var queue := ChildList(0);
      ghost var done: set<nat> := {};
      StartProgress(queue);
      while queue != []
        invariant Frontier(name, at, queue, done)
        invariant Progress(words, name, fail, out, Seen(queue, done))
        decreases at.Values - done
      {
        var cur := queue[0];
        ghost var seen := Seen(queue, done);
        LevelSeen(queue, done);
        var kids := LinkChildren(cur, seen);
        FrontierStep(goto, name, at, queue, done, kids);
        SeenNext(queue, done, kids);
        assert at[name[cur]] == cur;
        queue, done := queue[1..] + kids, done + {cur};
      }
      EndProgress(done);
    }

    lemma EndProgress(done: set<nat>)
      requires Tree(goto, name, at) && Frontier(name, at, [], done)
      requires Progress(words, name, fail, out, Seen([], done))
      ensures AllRight(words, name, fail, out)
    {
      forall m | 0 <= m < |name| ensures Right(words, name, fail, out, m) {
        if m != 0 {
          FrontierEnd(goto, name, at, done, m);
        }
        assert Fits(words, name, fail, out, Seen([], done), m);
      }
    }

    lemma StartProgress(queue: seq<nat>)
      requires Loading() && Children(name, at, 0, queue)
      ensures Frontier(name, at, queue, {})
      ensures Progress(words, name, fail, out, Seen(queue, {}))
    {
      FrontierStart(goto, name, at, queue);
      forall m | 0 <= m < |name| ensures Fits(words, name, fail, out, Seen(queue, {}), m) {
        assert Stale(words, name, fail, out, m);
        if m == 0 {
          ShallowRight(words, name, fail, out, m);
        } else if m in queue {
          var c := UpChild(goto, name, at, m);
          ShallowRight(words, name, fail, out, m);
        }
      }
    }

    /** When a node leaves the queue, all nodes of its depth are finished, its children not. */
    lemma LevelSeen(queue: seq<nat>, done: set<nat>)
      requires Tree(goto, name, at) && Frontier(name, at, queue, done) && queue != []
      ensures queue[0] < |name| && SeenTo(Seen(queue, done), |name[queue[0]]|)
      ensures forall m :: 0 < m < |name| && Up(name, at, m) == queue[0] ==>
                m !in Seen(queue, done)
    {
    }

    /** What the fail link of a node says: it leads to a path that is a proper suffix of the
        node's path, and no other such suffix is longer. */
    lemma FailMeaning(m: nat, k: nat)
      requires Valid() && 0 < m < |name| && k <= |name[m]|
      ensures |fail| == |name|
      ensures var p, f := name[m], fail[m];
              f < |name| && |name[f]| < |p| && name[f] == p[|p| - |name[f]|..] && IsPath(words, name[f]) &&
              (0 < k && IsPath(words, p[k..]) ==> |p| - k <= |name[f]|)
    {
      var p := name[m];
      assert Right(words, name, fail, out, m);
      assert p != [] by { assert at[name[m]] == m && at[name[0]] == 0; }
      LongestProper(words, p, k);
    }

    /** What the out value of a node says: it is the length of a word that is a suffix of the
        node's path, if there is one, and no other such word is longer. */
    lemma OutMeaning(m: nat, k: nat)
      requires Valid() && m < |name| && k <= |name[m]|
      ensures |out| == |name|
      ensures var p, len := name[m], out[m];
              len <= |p| && (len > 0 ==> p[|p| - len..] in words) &&
              (k < |p| && p[k..] in words ==> |p| - k <= len)
    {
      var p := name[m];
      assert Right(words, name, fail, out, m);
      if out[m] > 0 {
        LongestSuffixWord(words, p);
      }
      if k < |p| && p[k..] in words {
        LongestSuffixMaximal(words, p, k);
      }
    }

    // ----- scanning

    /** The scan of `filter`: one pass, at most one fail link per character over the whole
        text, and the node is always the longest suffix of the scanned text that is a path. */
    method Scan(low: string) returns (hits: seq<Span>, node: nat, ghost links: nat)
      requires Valid()
      ensures hits == EndHits(words, low, |low|)
      ensures node < |name| && name[node] == Longest(words, low)
      ensures links + |name[node]| <= |low|
    {
      hits, node, links := [], 0, 0;
      assert low[..0] == [];
      for i := 0 to |low|
        invariant hits == EndHits(words, low, i)
        invariant node < |name| && name[node] == Longest(words, low[..i])
        invariant links + |name[node]| <= i
      {
        ghost var more;
        AllFails(|name[node]|);
        node, more := Advance(node, low[i]);
        links := links + more;
        ScanStep(low, i, node);
        if out[node] != 0 {
          var end := i + 1;
          hits := hits + [Span(end - out[node], end)];
        }
      }
      assert low[..|low|] == low;
    }

    /** What the new node says about one more character of the text. */
    lemma ScanStep(low: string, i: nat, node: nat)
      requires Valid() && i < |low| && node < |name|
      requires name[node] == Longest(words, Longest(words, low[..i]) + [low[i]])
      ensures name[node] == Longest(words, low[..i + 1])
      ensures node < |out| && out[node] <= i + 1
      ensures EndHits(words, low, i + 1) ==
                EndHits(words, low, i) + if out[node] != 0 then [Span(i + 1 - out[node], i + 1)] else []
    {
      assert low[..i + 1] == low[..i] + [low[i]];
      LongestStep(words, low[..i], low[i]);
      SuffixSeenAtNode(words, low[..i + 1]);
      assert Right(words, name, fail, out, node);
    }

    lemma AllFails(depth: nat)
      requires Valid()
      ensures FailsTo(depth)
    {
      forall m | 0 <= m < |name| ensures FailRight(words, name, fail, m) {
        assert Right(words, name, fail, out, m);
      }
    }

    method Filter(text: string) returns (r: string)
      requires Valid()
      ensures r == AcOutput(words, text)
    {
      var low := Lower(text);
      HitsWellFormed(words, low, |low|);
      if text == "" || |goto| <= 1 {
        NothingLoaded(low);
        MaskKeeps(text, AcMasked(words, low), 0, |text|);
        assert text[0..|text|] + "" == text;
        return text;
      }
      var hits, _, _ := Scan(low);
      r := ReplaceHits(text, hits);
    }

    method Contains(text: string) returns (r: bool)
      requires Valid()
      ensures r <==> AcOutput(words, text) != text
    {
      var s := Filter(text);
      r := s != text;
    }

    /** With the root alone there is no word, hence no hit. */
    lemma NothingLoaded(low: string)
      requires Valid() && (low == "" || |goto| <= 1)
      ensures AcMasked(words, low) == {}
    {
      forall c ensures low == "" || !IsPath(words, [c]) {
        if |goto| <= 1 {
          assert [c] in at ==> name[at[[c]]] == [c] && at[[c]] == 0;
        }
      }
      AcMaskedCovered(words, low);
      forall k ensures !CoveredAt(words, low, k) {
        if CoveredAt(words, low, k) {
          var c := HitNeedsPath(words, low, k);
          assert false;
        }
      }
    }
  }
}
