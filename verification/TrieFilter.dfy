/** The default filter: a trie of linked nodes grown in place and rescanned from every
    start position of the text. */
module TrieFilter {
  import opened Text
  import opened Words
  import opened HitMerge
  import opened Matching
  import opened TrieShape

  class Node {
    var next: map<char, Node>
    var isEnd: bool

    constructor ()
      ensures next == map[] && !isEnd
    {
      next := map[];
      isEnd := false;
    }
  }

  /** A picture of the heap as values: the nodes in order of creation with the contents of
      their dictionaries, and the trie over their numbers. */
  datatype Picture = Picture(
    nodes: seq<Node>,
    number: map<Node, nat>,
    kids: seq<map<char, Node>>,
    goto: Edges,
    name: seq<string>,
    at: map<string, nat>
  ) {
    /** Node `n` has the children that the numbered trie says. */
    ghost predicate Links(n: nat) {
      n < |nodes| && n < |kids| && n < |goto| &&
      nodes[n] in number && number[nodes[n]] == n && kids[n].Keys == goto[n].Keys &&
      forall c :: c in goto[n] ==> goto[n][c] < |nodes| && kids[n][c] == nodes[goto[n][c]]
    }

    ghost predicate Shaped() {
      Tree(goto, name, at) && |nodes| == |goto| == |kids| &&
      forall n {:trigger Links(n)} :: 0 <= n < |nodes| ==> Links(n)
    }

    ghost function NodeAt(p: string): Node
      requires Shaped() && p in at
    {
      nodes[at[p]]
    }

    ghost function AddLeaf(p: string, c: char, leaf: Node): Picture
      requires Shaped() && p in at
    {
      var n, m := at[p], |nodes|;
      Picture(nodes + [leaf], number[leaf := m], (kids + [map[]])[n := kids[n][c := leaf]],
              (goto + [map[]])[n := goto[n][c := m]], name + [p + [c]], at[p + [c] := m])
    }

    lemma AddLeafShaped(p: string, c: char, leaf: Node)
      requires Shaped() && p in at && p + [c] !in at && leaf !in number
      ensures AddLeaf(p, c, leaf).Shaped()
    {
      var n := at[p];
      Follow(goto, name, at, n, c);
      Grow(goto, name, at, n, c);
      var after := AddLeaf(p, c, leaf);
      forall k | 0 <= k < |after.nodes| ensures after.Links(k) {
        if k < |nodes| { assert Links(k); }
      }
    }
  }

  class DFAFilter {
    var root: Node
    ghost var words: set<string>     // the normalised words loaded so far
    ghost var pic: Picture           // the heap of nodes

    ghost predicate Agrees(n: nat, ends: set<string>)
      requires n < |pic.nodes| && n < |pic.kids| && n < |pic.name|
      reads this, pic.nodes[n]
    {
      pic.nodes[n].next == pic.kids[n] && (pic.nodes[n].isEnd <==> pic.name[n] in ends)
    }

    /** The heap is as pictured; `ends` are the paths marked as words. */
    ghost predicate Mirrors(ends: set<string>)
      reads this, pic.number.Keys
    {
      pic.Shaped() && pic.nodes[0] == root &&
      forall n {:trigger pic.Links(n)} :: 0 <= n < |pic.nodes| ==> pic.Links(n) && Agrees(n, ends)
    }

    ghost predicate Valid()
      reads this, pic.number.Keys
    {
      Normal(words) && Mirrors(words) && Spans(pic.at, words)
    }

    /** `__init__`; no words given is the empty sequence. */
    constructor (raw: seq<string>)
      ensures Valid() && words == Normalised(raw) && fresh(pic.number.Keys)
    {
      var r := new Node();
      root := r;
      words := {};
      pic := Picture([r], map[r := 0], [map[]], [map[]], [[]], map[[] := 0]);
      new;
      assert pic.Links(0);
      Load(raw);
    }

    method Load(raw: seq<string>)
      requires Valid()
      modifies this, pic.number.Keys
      ensures Valid() && words == old(words) + Normalised(raw)
      ensures fresh(pic.number.Keys - old(pic.number.Keys))
    {
      for i := 0 to |raw|
        invariant Valid() && words == old(words) + Normalised(raw[..i])
        invariant fresh(pic.number.Keys - old(pic.number.Keys))
      {
        var word := Normalise(raw[i]);
        NormalisedSnoc(raw, i);
        if word != [] {
          Insert(word);
        }
      }
      assert raw[..|raw|] == raw;
    }

    method Insert(word: string)
      requires Valid() && word != [] && Lower(word) == word
      modifies this, pic.number.Keys
      ensures Valid() && words == old(words) + {word}
      ensures fresh(pic.number.Keys - old(pic.number.Keys))
    {
      var node := Walk(word);
      MarkEnd(word, node);
      SpansMore(old(pic.at), pic.at, old(words), word);
    }

    /** The walk of `load` for one normalised word. */
    method Walk(word: string) returns (node: Node)
      requires Valid()
      modifies this`pic, pic.number.Keys
      ensures Mirrors(words) && pic.at.Keys == old(pic.at.Keys) + Prefixes(word, |word|)
      ensures word in pic.at && node == pic.NodeAt(word) && node in pic.number
      ensures fresh(pic.number.Keys - old(pic.number.Keys))
    {
      node := root;
      assert pic.Links(0) && word[..0] == [];
      for j := 0 to |word|
        invariant Mirrors(words)
        invariant pic.at.Keys == old(pic.at.Keys) + Prefixes(word, j)
        invariant word[..j] in pic.at && node == pic.NodeAt(word[..j]) && node in pic.number
        invariant fresh(pic.number.Keys - old(pic.number.Keys))
      {
        PrefixesSnoc(word, j);
        node := SetDefault(word[..j], node, word[j]);
      }
      assert word[..|word|] == word;
    }

    /** `node.setdefault(ch, {})`: the existing child, or a fresh empty one. */
    method SetDefault(ghost p: string, node: Node, c: char) returns (child: Node)
      requires Mirrors(words) && p in pic.at && node == pic.NodeAt(p)
      requires p + [c] in words ==> p + [c] in pic.at
      modifies this`pic, node`next
      ensures Mirrors(words) && pic.at.Keys == old(pic.at.Keys) + {p + [c]}
      ensures child == pic.NodeAt(p + [c])
      ensures pic.number.Keys == old(pic.number.Keys) + {child}
      ensures fresh(child) || child in old(pic.number)
    {
      Follow(pic.goto, pic.name, pic.at, pic.at[p], c);
      assert pic.Links(pic.at[p]);
      if c !in node.next {
        child := new Node();
        AddLeaf(p, node, c, child);
      } else {
        child := node.next[c];
        assert pic.Links(pic.at[p + [c]]);
      }
    }

    method AddLeaf(ghost p: string, node: Node, c: char, child: Node)
      requires Mirrors(words) && p in pic.at && node == pic.NodeAt(p)
      requires p + [c] !in pic.at && p + [c] !in words
      requires child !in pic.number && child.next == map[] && !child.isEnd
      modifies this`pic, node`next
      ensures Mirrors(words) && pic == old(pic).AddLeaf(p, c, child)
    {
      pic.AddLeafShaped(p, c, child);
      ghost var before := pic;
      assert before.Links(before.at[p]);
      node.next := node.next[c := child];
      pic := pic.AddLeaf(p, c, child);
      forall k | 0 <= k < |pic.nodes| ensures Agrees(k, words) {
        if k < |before.nodes| {
          assert before.Links(k);
        }
      }
    }

    method MarkEnd(word: string, node: Node)
      requires Mirrors(words) && word in pic.at && node == pic.NodeAt(word)
      modifies this`words, node`isEnd
      ensures Mirrors(words) && words == old(words) + {word}
    {
      ghost var m := pic.at[word];
      assert pic.Links(m);
      node.isEnd := true;
      words := words + {word};
      forall n | 0 <= n < |pic.nodes| ensures Agrees(n, words) {
        assert pic.Links(n) && pic.at[pic.name[n]] == n;
      }
    }

    /** What one look at a node tells about the dictionary. */
    lemma Step(p: string, c: char)
      requires Valid() && p in pic.at
      ensures c in pic.NodeAt(p).next <==> IsPath(words, p + [c])
      ensures c in pic.NodeAt(p).next ==>
                p + [c] in pic.at && pic.NodeAt(p).next[c] == pic.NodeAt(p + [c]) &&
                (pic.NodeAt(p + [c]).isEnd <==> p + [c] in words)
    {
      Follow(pic.goto, pic.name, pic.at, pic.at[p], c);
      assert pic.Links(pic.at[p]);
      if p + [c] in pic.at {
        assert pic.Links(pic.at[p + [c]]);
      }
    }

    method Contains(text: string) returns (r: bool)
      requires Valid()
      ensures r <==> Hit(words, Lower(text))
    {
      var low := Lower(text);
      for i := 0 to |low|
        invariant forall a, b :: a < i ==> !Occurs(words, low, a, b)
      {
        r := BeginsAt(low, i);
        if r {
          return true;
        }
      }
      return false;
    }

    /** The inner loop of `contains`. */
    method BeginsAt(low: string, i: nat) returns (r: bool)
      requires Valid() && i < |low|
      ensures r <==> exists j :: Occurs(words, low, i, j)
    {
      var node := root;
      assert low[i..i] == [];
      for j := i to |low|
        invariant low[i..j] in pic.at && node == pic.NodeAt(low[i..j])
        invariant forall b :: b <= j ==> !Occurs(words, low, i, b)
      {
        assert low[i..j + 1] == low[i..j] + [low[j]];
        Step(low[i..j], low[j]);
        if low[j] !in node.next {
          forall b | j < b <= |low| ensures !Occurs(words, low, i, b) {
            assert low[i..j + 1] <= low[i..b];
          }
          return false;
        }
        node := node.next[low[j]];
        if node.isEnd {
          assert Occurs(words, low, i, j + 1);
          return true;
        }
      }
      return false;
    }

    method Filter(text: string) returns (r: string)
      requires Valid()
      ensures r == DfaOutput(words, text)
    {
      var low := Lower(text);
      DfaMasksCoverage(words, low);
      if text == "" || (root.next == map[] && !root.isEnd) {
        NothingLoaded(low);
        MaskKeeps(text, Covered(words, low), 0, |text|);
        assert text[0..|text|] == text;
        return text;
      }
      var hits: seq<Span> := [];
      for i := 0 to |low|
        invariant hits == StartHits(words, low, i)
      {
        var end := LongestFrom(low, i);
        if end > i {
          hits := hits + [Span(i, end)];
        }
      }
      HitsWellFormed(words, low, |low|);
      r := ReplaceHits(text, hits);
    }

    /** The inner loop of `filter`: the end of the longest word beginning at `i`, or -1. */
    method LongestFrom(low: string, i: nat) returns (end: int)
      requires Valid() && i < |low|
      ensures end == EndOf(i, LongestPrefix(words, low[i..]))
    {
      var node := root;
      end := -1;
      ghost var len := 0;
      assert low[i..i] == [];
      for j := i to |low|
        invariant low[i..j] in pic.at && node == pic.NodeAt(low[i..j])
        invariant len == LongestPrefix(words, low[i..j]) && end == EndOf(i, len)
      {
        LongestPrefixFrom(words, low, i, j);
        Step(low[i..j], low[j]);
        if low[j] !in node.next {
          return;
        }
        node := node.next[low[j]];
        if node.isEnd {
          end := j + 1;
          len := j + 1 - i;
        }
      }
      assert low[i..|low|] == low[i..];
    }

    ghost function EndOf(i: nat, len: nat): int {
      if len > 0 then i + len else -1
    }

    /** An empty root means an empty dictionary, and nothing is covered. */
    lemma NothingLoaded(low: string)
      requires Valid() && (low == "" || root.next == map[])
      ensures Covered(words, low) == {}
    {
      assert pic.Links(0);
      forall c ensures low == "" || !IsPath(words, [c]) {
        Step([], c);
        assert [] + [c] == [c];
      }
      forall k ensures !CoveredAt(words, low, k) {
        if CoveredAt(words, low, k) {
          var c := HitNeedsPath(words, low, k);
          assert false;
        }
      }
    }
  }
}
