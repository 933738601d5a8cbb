/** What the two scanners record and what the two filters output, as functions of the
    dictionary and the text alone. */
module Matching {
  import opened Text
  import opened Words
  import opened HitMerge

  /** The trie scanner's hits for the start positions below `n`: the longest word per start. */
  ghost function StartHits(words: set<string>, text: string, n: nat): seq<Span>
    requires n <= |text|
  {
    if n == 0 then [] else
      var len := LongestPrefix(words, text[n - 1..]);
      if len > 0 then StartHits(words, text, n - 1) + [Span(n - 1, n - 1 + len)]
      else StartHits(words, text, n - 1)
  }

  /** The automaton's hits for the end positions up to `n`: the longest word per end. */
  ghost function EndHits(words: set<string>, text: string, n: nat): seq<Span>
    requires n <= |text|
  {
    if n == 0 then [] else
      AppendHit(EndHits(words, text, n - 1), LongestSuffix(words, text[..n]), n)
  }

  ghost function AppendHit(hits: seq<Span>, len: nat, n: nat): seq<Span>
    requires len <= n
  {
    if len > 0 then hits + [Span(n - len, n)] else hits
  }

  /** Positions masked by the automaton filter. */
  ghost function AcMasked(words: set<string>, low: string): set<int> {
    Cells(Merge(EndHits(words, low, |low|)), |low|)
  }

  ghost function DfaOutput(words: set<string>, text: string): string {
    Mask(text, Covered(words, Lower(text)))
  }

  ghost function AcOutput(words: set<string>, text: string): string {
    Mask(text, AcMasked(words, Lower(text)))
  }

  /** The longest word beginning at `i`, in terms of occurrences. */
  lemma PrefixAtStart(words: set<string>, text: string, i: nat)
    requires i < |text|
    ensures var len := LongestPrefix(words, text[i..]);
            (len > 0 ==> Occurs(words, text, i, i + len)) &&
            forall j :: Occurs(words, text, i, j) ==> j <= i + len
  {
    var s := text[i..];
    var len := LongestPrefix(words, s);
    if len > 0 {
      LongestPrefixWord(words, s);
      assert text[i..i + len] == s[..len];
    }
    forall j | Occurs(words, text, i, j) ensures j <= i + len {
      assert text[i..j] == s[..j - i];
      LongestPrefixMaximal(words, s, j - i);
    }
  }

  /** The longest word ending at `n`, in terms of occurrences. */
  lemma SuffixAtEnd(words: set<string>, text: string, n: nat)
    requires n <= |text|
    ensures var len := LongestSuffix(words, text[..n]);
            (len > 0 ==> Occurs(words, text, n - len, n)) &&
            forall i :: Occurs(words, text, i, n) ==> n - len <= i
  {
    var s := text[..n];
    var len := LongestSuffix(words, s);
    if len > 0 {
      LongestSuffixWord(words, s);
      assert text[n - len..n] == s[n - len..];
    }
    forall i | Occurs(words, text, i, n) ensures n - len <= i {
      assert text[i..n] == s[i..];
      LongestSuffixMaximal(words, s, i);
    }
  }

  ghost predicate LongestFromStart(words: set<string>, text: string, h: Span) {
    Occurs(words, text, h.start, h.end) &&
    forall j :: Occurs(words, text, h.start, j) ==> j <= h.end
  }

  ghost predicate LongestToEnd(words: set<string>, text: string, h: Span) {
    Occurs(words, text, h.start, h.end) &&
    forall i :: Occurs(words, text, i, h.end) ==> h.start <= i
  }

  /** The hits per start are exactly the longest occurrences beginning there. */
  lemma {:induction false} StartHitsExact(words: set<string>, text: string, n: nat, h: Span)
    requires n <= |text|
    ensures h in StartHits(words, text, n) <==> h.start < n && LongestFromStart(words, text, h)
  {
    if n > 0 {
      StartHitsExact(words, text, n - 1, h);
      PrefixAtStart(words, text, n - 1);
    }
  }

  /** For each end position where some word ends the automaton records exactly the longest
      such word, and nothing else. */
  lemma {:induction false} EndHitsExact(words: set<string>, text: string, n: nat, h: Span)
    requires n <= |text|
    ensures h in EndHits(words, text, n) <==> h.end <= n && LongestToEnd(words, text, h)
  {
    if n > 0 {
      EndHitsExact(words, text, n - 1, h);
      SuffixAtEnd(words, text, n);
    }
  }

  lemma HitsWellFormed(words: set<string>, text: string, n: nat)
    requires n <= |text|
    ensures WellFormed(StartHits(words, text, n), |text|)
    ensures WellFormed(EndHits(words, text, n), n)
    ensures forall h :: h in StartHits(words, text, n) ==> h.start < n
  {
  }

  lemma {:induction false} StartHitsAscend(words: set<string>, text: string, n: nat)
    requires n <= |text|
    ensures StartsAscend(StartHits(words, text, n))
  {
    if n > 0 {
      StartHitsAscend(words, text, n - 1);
      HitsWellFormed(words, text, n - 1);
      var before, hits := StartHits(words, text, n - 1), StartHits(words, text, n);
      forall i, j | 0 <= i < j < |hits| ensures hits[i].start <= hits[j].start {
        assert hits[i] == before[i] && before[i] in before;
        assert j < |before| ==> hits[j] == before[j];
      }
    }
  }

  /** Longest-per-start hits, longest-per-end hits and all occurrences cover the same positions. */
  lemma SameCoverage(words: set<string>, text: string, k: int)
    ensures Inside(StartHits(words, text, |text|), k) <==> CoveredAt(words, text, k)
    ensures Inside(EndHits(words, text, |text|), k) <==> CoveredAt(words, text, k)
  {
    var starts, ends := StartHits(words, text, |text|), EndHits(words, text, |text|);
    forall n | 0 <= n < |starts| && starts[n].start <= k < starts[n].end
      ensures CoveredAt(words, text, k)
    {
      StartHitsExact(words, text, |text|, starts[n]);
    }
    forall n | 0 <= n < |ends| && ends[n].start <= k < ends[n].end
      ensures CoveredAt(words, text, k)
    {
      EndHitsExact(words, text, |text|, ends[n]);
    }
    if CoveredAt(words, text, k) {
      var i, j :| Occurs(words, text, i, j) && i <= k < j;
      var s := LongestAtStart(words, text, i, j);
      var e := LongestAtEnd(words, text, i, j);
    }
  }

  lemma LongestAtStart(words: set<string>, text: string, i: int, j: int) returns (h: Span)
    requires Occurs(words, text, i, j)
    ensures h in StartHits(words, text, |text|) && h.start == i && j <= h.end
  {
    PrefixAtStart(words, text, i);
    h := Span(i, i + LongestPrefix(words, text[i..]));
    StartHitsExact(words, text, |text|, h);
  }

  lemma LongestAtEnd(words: set<string>, text: string, i: int, j: int) returns (h: Span)
    requires Occurs(words, text, i, j)
    ensures h in EndHits(words, text, |text|) && h.start <= i && h.end == j
    ensures h.start == j - LongestSuffix(words, text[..j])
  {
    SuffixAtEnd(words, text, j);
    h := Span(j - LongestSuffix(words, text[..j]), j);
    EndHitsExact(words, text, |text|, h);
  }

  /** The trie filter masks exactly the covered positions, whatever the dictionary. */
  lemma DfaMasksCoverage(words: set<string>, text: string)
    ensures Cells(Merge(StartHits(words, text, |text|)), |text|) == Covered(words, text)
  {
    var hits := StartHits(words, text, |text|);
    StartHitsAscend(words, text, |text|);
    forall k ensures Inside(Merge(hits), k) <==> CoveredAt(words, text, k) {
      SortedStartsKeepAll(hits, k);
      SameCoverage(words, text, k);
    }
  }

  // ----- the automaton's blocks, opened in order of end positions

  /** No dictionary word ends in the open-closed stretch (from, to] of the text. */
  ghost predicate NoEnd(words: set<string>, text: string, from: int, to: int) {
    forall e {:trigger EndsNone(words, text, e)} ::
      from < e <= to && 0 <= e <= |text| ==> EndsNone(words, text, e)
  }

  ghost predicate EndsNone(words: set<string>, text: string, e: int) {
    0 <= e <= |text| && LongestSuffix(words, text[..e]) == 0
  }

  /** A block starting at `start` was opened by the longest word ending at `first`, before
      which no word ended at or behind `start`. */
  ghost predicate OpenedAt(words: set<string>, text: string, start: nat, first: nat) {
    start < first <= |text| && LongestSuffix(words, text[..first]) == first - start &&
    NoEnd(words, text, start - 1, first - 1)
  }

  /** One more end position `n` at which a longest word of length `len` ends, or none. */
  ghost function NextBlocks(blocks: seq<Span>, len: nat, n: nat): seq<Span>
    requires len <= n
  {
    if len > 0 then Absorb(blocks, Span(n - len, n)) else blocks
  }

  ghost predicate AcStep(words: set<string>, text: string, trace: seq<seq<Span>>, n: nat) {
    0 < n < |trace| && n <= |text| &&
    trace[n] == NextBlocks(trace[n - 1], LongestSuffix(words, text[..n]), n)
  }

  /** The blocks of the automaton filter after every end position of the text. */
  ghost predicate Traced(words: set<string>, text: string, trace: seq<seq<Span>>) {
    |trace| == |text| + 1 && trace[0] == [] &&
    forall n {:trigger AcStep(words, text, trace, n)} :: 0 < n <= |text| ==> AcStep(words, text, trace, n)
  }

  lemma MergeAppend(hits: seq<Span>, len: nat, n: nat)
    requires len <= n
    ensures Merge(AppendHit(hits, len, n)) == NextBlocks(Merge(hits), len, n)
  {
  }

  /** The blocks after the hits that end at or before `n`. */
  ghost function BlocksAfter(words: set<string>, text: string, n: int): seq<Span> {
    if 0 <= n <= |text| then Merge(EndHits(words, text, n)) else []
  }

  lemma BlocksNext(words: set<string>, text: string, n: nat)
    requires 0 < n <= |text|
    ensures LongestSuffix(words, text[..n]) <= n
    ensures BlocksAfter(words, text, n) ==
              NextBlocks(BlocksAfter(words, text, n - 1), LongestSuffix(words, text[..n]), n)
  {
    MergeAppend(EndHits(words, text, n - 1), LongestSuffix(words, text[..n]), n);
  }

  lemma TraceBuilt(words: set<string>, text: string, trace: seq<seq<Span>>)
    requires |trace| == |text| + 1
    requires forall n :: 0 <= n <= |text| ==> trace[n] == BlocksAfter(words, text, n)
    ensures Traced(words, text, trace)
  {
    forall n | 0 < n <= |text| ensures AcStep(words, text, trace, n) {
      BlocksNext(words, text, n);
    }
  }

  lemma AcTrace(words: set<string>, text: string) returns (trace: seq<seq<Span>>)
    ensures Traced(words, text, trace)
    ensures AcMasked(words, text) == Cells(trace[|text|], |text|)
    ensures trace[|text|] == Merge(EndHits(words, text, |text|))
  {
    trace := seq(|text| + 1, n => BlocksAfter(words, text, n));
    TraceBuilt(words, text, trace);
  }

  lemma FirstBlock(len: nat, n: nat)
    requires len <= n
    ensures NextBlocks([], len, n) == if len > 0 then [Span(n - len, n)] else []
  {
  }

  /** A match that touches the only block extends it to its own end. */
  lemma OneBlock(b: Span, len: nat, n: nat)
    requires 0 < len <= n && n - len <= b.end <= n
    ensures NextBlocks([b], len, n) == [Span(b.start, n)]
  {
  }

  /** The blocks of a text of three characters from its three longest matches. */
  lemma BlocksOfThree(words: set<string>, text: string)
    requires |text| == 3
    ensures var l1, l2 := LongestSuffix(words, text[..1]), LongestSuffix(words, text[..2]);
            var l3 := LongestSuffix(words, text[..3]);
            l1 <= 1 && l2 <= 2 && l3 <= 3 &&
            Merge(EndHits(words, text, 3)) == NextBlocks(NextBlocks(NextBlocks([], l1, 1), l2, 2), l3, 3)
  {
    var trace := AcTrace(words, text);
    assert AcStep(words, text, trace, 1) && AcStep(words, text, trace, 2) && AcStep(words, text, trace, 3);
  }

  lemma {:induction false} TraceShape(words: set<string>, text: string, trace: seq<seq<Span>>, n: nat)
    requires Traced(words, text, trace) && n <= |text|
    ensures WellFormed(trace[n], n) && Separated(trace[n])
  {
    if n > 0 {
      TraceShape(words, text, trace, n - 1);
      assert AcStep(words, text, trace, n);
      var len := LongestSuffix(words, text[..n]);
      if len > 0 {
        AbsorbShape(trace[n - 1], Span(n - len, n), n);
      }
    }
  }

  /** The state of the merge after the end positions up to `n`: how the last block came about
      and that it reaches to the last end position seen. */
  ghost predicate LastBlockAt(words: set<string>, text: string, n: nat, blocks: seq<Span>, first: nat) {
    if blocks == [] then NoEnd(words, text, -1, n) else
      var b := blocks[|blocks| - 1];
      b.start < first <= b.end <= n <= |text| && OpenedAt(words, text, b.start, first) &&
      LongestSuffix(words, text[..b.end]) > 0 && NoEnd(words, text, b.end, n)
  }

  lemma {:induction false} LastBlock(words: set<string>, text: string, trace: seq<seq<Span>>, n: nat)
    returns (first: nat)
    requires Traced(words, text, trace) && n <= |text|
    ensures LastBlockAt(words, text, n, trace[n], first)
  {
    if n == 0 {
      assert text[..0] == [];
      first := 0;
    } else {
      first := LastBlock(words, text, trace, n - 1);
      assert AcStep(words, text, trace, n);
      first := LastBlockStep(words, text, n, trace[n - 1], first);
    }
  }

  lemma LastBlockStep(words: set<string>, text: string, n: nat, blocks: seq<Span>, first: nat)
    returns (first': nat)
    requires 0 < n <= |text| && LastBlockAt(words, text, n - 1, blocks, first)
    ensures LastBlockAt(words, text, n, NextBlocks(blocks, LongestSuffix(words, text[..n]), n), first')
  {
    var len := LongestSuffix(words, text[..n]);
    first' := first;
    if len > 0 && (blocks == [] || blocks[|blocks| - 1].end < n - len) {
      first' := n;
      assert Absorb(blocks, Span(n - len, n)) == blocks + [Span(n - len, n)];
    }
  }

  /** Positions masked by the automaton filter belong to some occurrence. */
  lemma AcMaskedCovered(words: set<string>, text: string)
    ensures AcMasked(words, text) <= Covered(words, text)
  {
    forall k | k in AcMasked(words, text) ensures k in Covered(words, text) {
      MergeInside(EndHits(words, text, |text|), k);
      SameCoverage(words, text, k);
    }
  }

  /** A masked position stays masked. */
  lemma {:induction false} TraceKeeps(words: set<string>, text: string, trace: seq<seq<Span>>,
                                      e: nat, n: nat, k: int)
    requires Traced(words, text, trace) && e <= n <= |text| && Inside(trace[e], k)
    ensures Inside(trace[n], k)
  {
    if e < n {
      TraceKeeps(words, text, trace, e, n - 1, k);
      assert AcStep(words, text, trace, n);
      var len := LongestSuffix(words, text[..n]);
      if len > 0 {
        AbsorbKeeps(trace[n - 1], Span(n - len, n), k);
      }
    }
  }

  lemma StepMasksEnd(blocks: seq<Span>, len: nat, e: nat)
    requires 0 < len <= e && WellFormed(blocks, e - 1)
    ensures Inside(NextBlocks(blocks, len, e), e - 1)
  {
    AbsorbMasksEnd(blocks, Span(e - len, e));
  }

  lemma EndInside(words: set<string>, text: string, trace: seq<seq<Span>>, e: nat)
    requires Traced(words, text, trace) && 0 < e <= |text| && LongestSuffix(words, text[..e]) > 0
    ensures Inside(trace[e], e - 1)
  {
    TraceShape(words, text, trace, e - 1);
    assert AcStep(words, text, trace, e);
    StepMasksEnd(trace[e - 1], LongestSuffix(words, text[..e]), e);
  }

  lemma InCells(spans: seq<Span>, size: nat, k: nat)
    requires k < size && Inside(spans, k)
    ensures k in Cells(spans, size)
  {
  }

  /** The last character of every occurrence is always masked by the automaton filter. */
  lemma AcKeepsEnds(words: set<string>, text: string, e: nat)
    requires 0 < e <= |text| && LongestSuffix(words, text[..e]) > 0
    ensures e - 1 in AcMasked(words, text)
  {
    var trace := AcTrace(words, text);
    EndInside(words, text, trace, e);
    TraceKeeps(words, text, trace, e, |text|, e - 1);
    InCells(trace[|text|], |text|, e - 1);
  }

  /** Both filters and the search for a hit look at the lower-case form only, so they do the
      same on two texts that differ in case only. */
  lemma CaseIgnored(words: set<string>, s: string, t: string)
    requires |s| == |t|
    requires forall i :: 0 <= i < |s| ==>
               s[i] == t[i] || (65 <= s[i] as int <= 90 && t[i] as int == s[i] as int + 32) ||
               (65 <= t[i] as int <= 90 && s[i] as int == t[i] as int + 32)
    ensures Hit(words, Lower(s)) <==> Hit(words, Lower(t))
    ensures Covered(words, Lower(s)) == Covered(words, Lower(t))
    ensures AcMasked(words, Lower(s)) == AcMasked(words, Lower(t))
  {
    LowerSameExactly(s, t);
  }
}
