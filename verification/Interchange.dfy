/** When the two filters may replace each other, proved exactly. */
module Interchange {
  import opened Text
  import opened Words
  import opened HitMerge
  import opened Matching

  /** The word `v` hides a gap at `b`: the longest word ending at `b` inside `v` starts
      behind the beginning of `v`, and no word inside `v` ends before `b` at or behind that
      start. The automaton then opens a block inside `v` that never reaches back. */
  ghost predicate GapAt(words: set<string>, v: string, b: nat) {
    0 < b < |v| &&
    var len := LongestSuffix(words, v[..b]);
    0 < len < b && NoEnd(words, v, b - len - 1, b - 1)
  }

  /** A condition on the dictionary alone: no word hides a gap. */
  ghost predicate Bridged(words: set<string>) {
    forall v, b: nat :: v in words ==> !GapAt(words, v, b)
  }

  lemma WindowHasEnd(words: set<string>, s: string, k: nat)
    requires k <= |s| && LongestSuffix(words, s[k..]) > 0
    ensures LongestSuffix(words, s) > 0
  {
    var t := s[k..];
    LongestSuffixWord(words, t);
    var j := |t| - LongestSuffix(words, t);
    assert t[j..] == s[k + j..];
    LongestSuffixMaximal(words, s, k + j);
  }

  /** A hit that would have to reach back behind the block it joins spells a word with a gap. */
  lemma ReachingBackIsGap(words: set<string>, text: string, n: nat, start: nat, first: nat)
    requires 0 < n <= |text| && first < n && OpenedAt(words, text, start, first)
    requires var len := LongestSuffix(words, text[..n]); len > 0 && n - len < start
    ensures var k := n - LongestSuffix(words, text[..n]);
            text[k..n] in words && GapAt(words, text[k..n], first - k)
  {
    var k := n - LongestSuffix(words, text[..n]);
    var v, b := text[k..n], first - k;
    SuffixAtEnd(words, text, n);
    assert text[..first][k..] == v[..b];
    LongestSuffixWindow(words, text[..first], k);
    forall e | start - k - 1 < e <= b - 1 && 0 <= e <= |v| ensures EndsNone(words, v, e) {
      assert EndsNone(words, text, k + e);
      assert text[..k + e][k..] == v[..e];
      if LongestSuffix(words, v[..e]) > 0 {
        WindowHasEnd(words, text[..k + e], k);
      }
    }
  }

  /** In a bridged dictionary a hit never reaches back behind the start of the block it joins. */
  lemma NeverReachesBack(words: set<string>, text: string, n: nat, blocks: seq<Span>, first: nat)
    requires Bridged(words) && 0 < n <= |text| && LastBlockAt(words, text, n - 1, blocks, first)
    requires LongestSuffix(words, text[..n]) > 0
    ensures blocks != [] ==> blocks[|blocks| - 1].start <= n - LongestSuffix(words, text[..n])
  {
    if blocks != [] && n - LongestSuffix(words, text[..n]) < blocks[|blocks| - 1].start {
      ReachingBackIsGap(words, text, n, blocks[|blocks| - 1].start, first);
    }
  }

  /** In a bridged dictionary every hit is masked completely. */
  lemma BridgedKeepsHit(words: set<string>, text: string, trace: seq<seq<Span>>, e: nat, k: int)
    requires Bridged(words) && Traced(words, text, trace)
    requires 0 < e <= |text| && e - LongestSuffix(words, text[..e]) <= k < e
    ensures Inside(trace[|text|], k)
  {
    var first := LastBlock(words, text, trace, e - 1);
    NeverReachesBack(words, text, e, trace[e - 1], first);
    assert AcStep(words, text, trace, e);
    AbsorbInOrder(trace[e - 1], Span(e - LongestSuffix(words, text[..e]), e), k);
    TraceKeeps(words, text, trace, e, |text|, k);
  }

  lemma BridgedMasksCoverage(words: set<string>, low: string)
    requires Bridged(words)
    ensures AcMasked(words, low) == Covered(words, low)
  {
    AcMaskedCovered(words, low);
    var trace := AcTrace(words, low);
    forall k | k in Covered(words, low) ensures k in AcMasked(words, low) {
      var i, j :| Occurs(words, low, i, j) && i <= k < j;
      SuffixAtEnd(words, low, j);
      BridgedKeepsHit(words, low, trace, j, k);
    }
  }

  // ----- the other direction: a gap shows

  ghost predicate Broken(blocks: seq<Span>, a: nat) {
    blocks != [] && blocks[|blocks| - 1].start >= a && !Inside(blocks, a - 1)
  }

  lemma BrokenOpens(blocks: seq<Span>, h: Span, size: nat)
    requires WellFormed(blocks, size) && Separated(blocks) && 0 < h.start < h.end
    requires blocks != [] ==> blocks[|blocks| - 1].end < h.start
    ensures Broken(Absorb(blocks, h), h.start)
  {
  }

  lemma GapOpens(words: set<string>, v: string, b: nat, blocks: seq<Span>, first: nat)
    requires GapAt(words, v, b) && LastBlockAt(words, v, b - 1, blocks, first)
    requires WellFormed(blocks, b - 1) && Separated(blocks)
    ensures var a := b - LongestSuffix(words, v[..b]); Broken(Absorb(blocks, Span(a, b)), a)
  {
    var a := b - LongestSuffix(words, v[..b]);
    if blocks != [] {
      assert EndsNone(words, v, blocks[|blocks| - 1].end) || blocks[|blocks| - 1].end < a;
    }
    BrokenOpens(blocks, Span(a, b), b - 1);
  }

  lemma BrokenStep(blocks: seq<Span>, h: Span, a: nat, size: nat)
    requires a > 0 && Broken(blocks, a) && WellFormed(blocks, size)
    ensures Broken(Absorb(blocks, h), a)
  {
  }

  lemma BrokenNext(blocks: seq<Span>, len: nat, n: nat, a: nat)
    requires a > 0 && len <= n && n > 0 && Broken(blocks, a) && WellFormed(blocks, n - 1)
    ensures Broken(NextBlocks(blocks, len, n), a)
  {
    if len > 0 {
      BrokenStep(blocks, Span(n - len, n), a, n - 1);
    }
  }

  lemma {:induction false} GapStays(words: set<string>, v: string, trace: seq<seq<Span>>, b: nat, a: nat, n: nat)
    requires Traced(words, v, trace) && b <= n <= |v| && a > 0 && Broken(trace[b], a)
    ensures Broken(trace[n], a)
  {
    if b < n {
      GapStays(words, v, trace, b, a, n - 1);
      TraceShape(words, v, trace, n - 1);
      assert AcStep(words, v, trace, n);
      BrokenNext(trace[n - 1], LongestSuffix(words, v[..n]), n, a);
    }
  }

  /** A kept character and a masked last character make an output of at least four. */
  lemma {:induction false} MaskAtLeast(text: string, masked: set<int>, i: nat, kept: nat)
    requires i < |text| && kept < |text| && kept !in masked && |text| - 1 in masked
    ensures |Mask(text, masked, i)| >= if i <= kept then 4 else 3
    decreases |text| - i
  {
    if i + 1 < |text| {
      MaskAtLeast(text, masked, i + 1, kept);
    }
  }

  lemma GapBreaks(words: set<string>, v: string, trace: seq<seq<Span>>, b: nat)
    requires GapAt(words, v, b) && Traced(words, v, trace)
    ensures b - LongestSuffix(words, v[..b]) > 0 && Broken(trace[b], b - LongestSuffix(words, v[..b]))
  {
    var first := LastBlock(words, v, trace, b - 1);
    TraceShape(words, v, trace, b - 1);
    GapOpens(words, v, b, trace[b - 1], first);
    assert AcStep(words, v, trace, b);
  }

  /** Scanning a word with a gap, the automaton never masks the position before the gap's block. */
  lemma GapNotMasked(words: set<string>, v: string, b: nat)
    requires GapAt(words, v, b)
    ensures b - LongestSuffix(words, v[..b]) - 1 !in AcMasked(words, v)
  {
    var a := b - LongestSuffix(words, v[..b]);
    var trace := AcTrace(words, v);
    GapBreaks(words, v, trace, b);
    GapStays(words, v, trace, b, a, |v|);
  }

  lemma WordMaskedWhole(words: set<string>, v: string)
    requires v in words && v != "" && Lower(v) == v
    ensures DfaOutput(words, v) == REPLACEMENT
    ensures |v| - 1 in AcMasked(words, v)
  {
    var n := |v|;
    assert v[0..n] == v && v[..n] == v;
    assert Occurs(words, v, 0, n);
    forall k | 0 <= k < n ensures k in Covered(words, v) { }
    MaskRun(v, Covered(words, v), 0, n);
    AcKeepsEnds(words, v, n);
  }

  /** A word with a gap is itself a text on which the filters differ. */
  lemma GapShows(words: set<string>, v: string, b: nat)
    requires v in words && Lower(v) == v && GapAt(words, v, b)
    ensures DfaOutput(words, v) == REPLACEMENT
    ensures |AcOutput(words, v)| > |REPLACEMENT|
  {
    WordMaskedWhole(words, v);
    GapNotMasked(words, v, b);
    MaskAtLeast(v, AcMasked(words, v), 0, b - LongestSuffix(words, v[..b]) - 1);
  }

  /** The two filters agree on every text if and only if no word hides a gap. */
  lemma InterchangeableExactly(words: set<string>)
    requires Normal(words)
    ensures (forall text :: AcOutput(words, text) == DfaOutput(words, text)) <==> Bridged(words)
  {
    if Bridged(words) {
      forall text ensures AcOutput(words, text) == DfaOutput(words, text) {
        BridgedMasksCoverage(words, Lower(text));
      }
    } else {
      var v, b: nat :| v in words && GapAt(words, v, b);
      GapShows(words, v, b);
      assert AcOutput(words, v) != DfaOutput(words, v);
    }
  }

  // ----- a simple sufficient condition, and an example without it

  /** The word `u` lies strictly inside `v`: it starts later and ends earlier. */
  ghost predicate StrictlyInside(u: string, v: string, a: nat) {
    0 < a && a + |u| < |v| && v[a..a + |u|] == u
  }

  ghost predicate NoNesting(words: set<string>) {
    forall u, v, a: nat :: u in words && v in words && u != "" ==> !StrictlyInside(u, v, a)
  }

  /** Dictionaries without nested words are interchangeable on every text. */
  lemma NoNestingInterchangeable(words: set<string>, text: string)
    requires NoNesting(words)
    ensures AcOutput(words, text) == DfaOutput(words, text)
  {
    forall v, b: nat | v in words ensures !GapAt(words, v, b) {
      if GapAt(words, v, b) {
        var len := LongestSuffix(words, v[..b]);
        LongestSuffixWord(words, v[..b]);
        assert v[..b][b - len..] == v[b - len..b];
        assert StrictlyInside(v[b - len..b], v, b - len);
        assert false;
      }
    }
    BridgedMasksCoverage(words, Lower(text));
  }

  /** The longest matches at the end positions of "abc". */
  lemma NestedWordsEnds()
    ensures var words, v := {"b", "abc"}, "abc";
            LongestSuffix(words, v[..1]) == 0 && LongestSuffix(words, v[..2]) == 1 &&
            LongestSuffix(words, v[..3]) == 3
  {
    assert "abc"[..1] == "a" && "abc"[..2] == "ab" && "abc"[..3] == "abc";
    assert "a"[1..] == "" && "ab"[1..] == "b";
  }

  /** A match in the middle and one over all three characters leave the first one out. */
  lemma MiddleThenAll(words: set<string>, v: string)
    requires |v| == 3 && LongestSuffix(words, v[..1]) == 0
    requires LongestSuffix(words, v[..2]) == 1 && LongestSuffix(words, v[..3]) == 3
    ensures Merge(EndHits(words, v, 3)) == [Span(1, 3)] && GapAt(words, v, 2)
  {
    BlocksOfThree(words, v);
    FirstBlock(0, 1);
    FirstBlock(1, 2);
    OneBlock(Span(1, 2), 3, 3);
    assert forall e :: 0 < e <= 1 ==> EndsNone(words, v, e);
  }

  lemma MaskedFromB()
    ensures Mask("abc", Cells([Span(1, 3)], 3)) == "a***"
  {
    RenderIsMask("abc", [Span(1, 3)]);
    assert Render("abc", [], 3) == "";
    assert "abc"[0..1] == "a";
  }

  /** The filters are not interchangeable for every dictionary: with "b" and "abc" the text
      "abc" is masked whole by the trie and only from "b" on by the automaton. */
  lemma NestedWordsDiffer()
    ensures DfaOutput({"b", "abc"}, "abc") == "***"
    ensures AcOutput({"b", "abc"}, "abc") == "a***"
  {
    var words, v := {"b", "abc"}, "abc";
    assert Lower(v) == v;
    NestedWordsEnds();
    MiddleThenAll(words, v);
    GapShows(words, v, 2);
    MaskedFromB();
    assert AcMasked(words, v) == Cells([Span(1, 3)], 3);
  }
}
