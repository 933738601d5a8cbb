/** What the rewriting leaves behind: when it is visible at all, and that no word survives it. */
module StarWords {
  import opened Text
  import opened Words
  import opened HitMerge
  import opened Matching

  // ----- the output contains no word

  ghost predicate StarFree(words: set<string>) {
    forall w :: w in words ==> '*' !in w
  }

  predicate ThreeStarsAt(w: string, i: nat) {
    i + 2 < |w| && w[i] == w[i + 1] == w[i + 2] == '*'
  }

  /** The word does not end in a star and holds no replacement. */
  ghost predicate Solid(w: string) {
    (w != "" ==> w[|w| - 1] != '*') && forall i :: 0 <= i < |w| ==> !ThreeStarsAt(w, i)
  }

  /** Stars stand only inside the word, at most two together: no piece of the output that overlaps
      a replacement can spell it. */
  ghost predicate StarsInside(w: string) {
    Solid(w) && (w != "" ==> w[0] != '*')
  }

  ghost predicate AllStarsInside(words: set<string>) {
    forall w :: w in words ==> StarsInside(w)
  }

  lemma StarFreeInside(words: set<string>)
    requires StarFree(words)
    ensures AllStarsInside(words)
  {
    forall w | w in words ensures StarsInside(w) {
      assert forall i :: 0 <= i < |w| ==> w[i] in w;
    }
  }

  lemma SolidTail(u: string)
    requires Solid(u) && u != ""
    ensures Solid(u[1..])
  {
    forall i | 0 <= i < |u| - 1 ensures !ThreeStarsAt(u[1..], i) {
      assert !ThreeStarsAt(u, i + 1);
    }
  }

  lemma {:induction false} MaskStartsWithStars(text: string, masked: set<int>, i: nat)
    requires i < |text| && i in masked
    ensures REPLACEMENT <= Mask(text, masked, i)
    decreases |text| - i
  {
    if i + 1 < |text| && i + 1 in masked {
      MaskStartsWithStars(text, masked, i + 1);
    }
  }

  /** A solid word does not begin where a replacement begins. */
  lemma SolidNotAtStars(u: string, m: string)
    requires Solid(u) && u != "" && REPLACEMENT <= m
    ensures !(u <= m)
  {
    assert m[0] == REPLACEMENT[0] && m[1] == REPLACEMENT[1] && m[2] == REPLACEMENT[2];
    if u <= m {
      assert |u| > 2 ==> ThreeStarsAt(u, 0);
    }
  }

  /** `u` stands at position `k` of the text and none of its characters is masked. */
  ghost predicate KeptAt(text: string, masked: set<int>, u: string, k: nat) {
    k + |u| <= |text| && text[k..k + |u|] == u && forall x :: k <= x < k + |u| ==> x !in masked
  }

  lemma {:induction false} SolidPrefixKept(text: string, masked: set<int>, i: nat, u: string)
    requires i <= |text| && Solid(u) && u <= Mask(text, masked, i)
    ensures KeptAt(text, masked, u, i)
    decreases |u|
  {
    if u != "" {
      if i in masked {
        MaskStartsWithStars(text, masked, i);
        SolidNotAtStars(u, Mask(text, masked, i));
      } else {
        SolidTail(u);
        SolidPrefixKept(text, masked, i + 1, u[1..]);
        assert text[i..i + |u|] == [text[i]] + text[i + 1..i + |u|];
      }
    }
  }

  lemma DropPrefix(a: string, b: string, p: nat)
    requires |a| <= p <= |a| + |b|
    ensures (a + b)[p..] == b[p - |a|..]
  {
  }

  lemma FirstOf(u: string, m: string, p: nat)
    requires p <= |m| && u != "" && u <= m[p..]
    ensures p < |m| && u[0] == m[p]
  {
  }

  /** A piece of the output that begins with another character than a star, and not with the
      kept one at `i`, is a piece of what the rest of the text produces. */
  lemma PieceBehind(text: string, masked: set<int>, i: nat, u: string, p: nat) returns (p': nat)
    requires i < |text| && u != "" && u[0] != '*' && (p > 0 || i in masked)
    requires p <= |Mask(text, masked, i)| && u <= Mask(text, masked, i)[p..]
    ensures p' <= |Mask(text, masked, i + 1)| && u <= Mask(text, masked, i + 1)[p'..]
  {
    var rest := Mask(text, masked, i + 1);
    if i !in masked {
      DropPrefix([text[i]], rest, p);
      p' := p - 1;
    } else if i + 1 < |text| && i + 1 in masked {
      p' := p;
    } else {
      BehindStars(rest, u, p);
      p' := p - 3;
    }
  }

  lemma BehindStars(rest: string, u: string, p: nat)
    requires u != "" && u[0] != '*' && p <= 3 + |rest| && u <= (REPLACEMENT + rest)[p..]
    ensures p >= 3 && u <= rest[p - 3..]
  {
    var m := REPLACEMENT + rest;
    FirstOf(u, m, p);
    assert m[0] == '*' && m[1] == '*' && m[2] == '*';
    DropPrefix(REPLACEMENT, rest, p);
  }

  /** Between two kept characters that were not neighbours there is a whole replacement, so a
      piece of the output with at most two stars together, all inside, is an untouched piece of
      the text. */
  lemma {:induction false} PieceKept(text: string, masked: set<int>, i: nat, u: string, p: nat)
    returns (k: nat)
    requires i <= |text| && StarsInside(u) && u != ""
    requires p <= |Mask(text, masked, i)| && u <= Mask(text, masked, i)[p..]
    ensures KeptAt(text, masked, u, k)
    decreases |text| - i
  {
    FirstOf(u, Mask(text, masked, i), p);
    if p == 0 && i !in masked {
      assert Mask(text, masked, i)[0..] == Mask(text, masked, i);
      SolidPrefixKept(text, masked, i, u);
      k := i;
    } else {
      var p' := PieceBehind(text, masked, i, u, p);
      k := PieceKept(text, masked, i + 1, u, p');
    }
  }

  /** If the end of every occurrence is masked, no word occurs in the result. */
  lemma NoWordSurvives(words: set<string>, low: string, masked: set<int>)
    requires AllStarsInside(words)
    requires forall i, j :: Occurs(words, low, i, j) ==> j - 1 in masked
    ensures !Hit(words, Mask(low, masked))
  {
    var m := Mask(low, masked);
    forall p, q ensures !Occurs(words, m, p, q) {
      if Occurs(words, m, p, q) {
        var u := m[p..q];
        assert u <= m[p..];
        var k := PieceKept(low, masked, 0, u, p);
        assert Occurs(words, low, k, k + |u|);
        assert false;
      }
    }
  }

  lemma {:induction false} LowerMask(text: string, masked: set<int>, i: nat)
    requires i <= |text|
    ensures Lower(Mask(text, masked, i)) == Mask(Lower(text), masked, i)
    decreases |text| - i
  {
    if i < |text| {
      LowerMask(text, masked, i + 1);
    }
  }

  lemma NothingHit(words: set<string>, text: string)
    requires !Hit(words, Lower(text))
    ensures DfaOutput(words, text) == text && AcOutput(words, text) == text
  {
    var low := Lower(text);
    AcMaskedCovered(words, low);
    MaskKeeps(text, AcMasked(words, low), 0, |text|);
    MaskKeeps(text, Covered(words, low), 0, |text|);
    assert text[0..|text|] == text && text + "" == text;
  }

  /** With words that have stars only inside, at most two together, no word occurs in either
      output; this needs no condition on nesting, although the automaton may mask less. */
  lemma OutputsClean(words: set<string>, text: string)
    requires AllStarsInside(words)
    ensures !Hit(words, Lower(DfaOutput(words, text)))
    ensures !Hit(words, Lower(AcOutput(words, text)))
  {
    var low := Lower(text);
    LowerMask(text, Covered(words, low), 0);
    LowerMask(text, AcMasked(words, low), 0);
    forall i, j | Occurs(words, low, i, j)
      ensures j - 1 in Covered(words, low) && j - 1 in AcMasked(words, low)
    {
      SuffixAtEnd(words, low, j);
      AcKeepsEnds(words, low, j);
    }
    NoWordSurvives(words, low, Covered(words, low));
    NoWordSurvives(words, low, AcMasked(words, low));
  }

  /** A word that ends in a star can survive: the trie leaves "a***" of "aa*", which contains "a*". */
  lemma StarWordSurvives()
    ensures DfaOutput({"a*"}, "aa*") == "a***" && Hit({"a*"}, Lower("a***"))
  {
    var words, t := {"a*"}, "aa*";
    var masked := Covered(words, t);
    assert Lower(t) == t && t[1..3] == "a*";
    assert Occurs(words, t, 1, 3);
    assert CoveredAt(words, t, 1) && CoveredAt(words, t, 2);
    assert !CoveredAt(words, t, 0) by {
      assert t[0..1] == "a" && t[0..2] == "aa" && t[0..3] == t;
    }
    MaskRun(t, masked, 1, 3);
    assert Mask(t, masked, 0) == ['a'] + Mask(t, masked, 1);
    assert Lower("a***") == "a***" && "a***"[0..2] == "a*";
    assert Occurs(words, "a***", 0, 2);
  }

  /** Filtering an already filtered message changes nothing. */
  lemma FiltersIdempotent(words: set<string>, text: string)
    requires AllStarsInside(words)
    ensures DfaOutput(words, DfaOutput(words, text)) == DfaOutput(words, text)
    ensures AcOutput(words, AcOutput(words, text)) == AcOutput(words, text)
  {
    OutputsClean(words, text);
    NothingHit(words, DfaOutput(words, text));
    NothingHit(words, AcOutput(words, text));
  }

  /** In particular with words without any star. */
  lemma StarFreeClean(words: set<string>, text: string)
    requires StarFree(words)
    ensures !Hit(words, Lower(DfaOutput(words, text))) && !Hit(words, Lower(AcOutput(words, text)))
    ensures DfaOutput(words, DfaOutput(words, text)) == DfaOutput(words, text)
    ensures AcOutput(words, AcOutput(words, text)) == AcOutput(words, text)
  {
    StarFreeInside(words);
    OutputsClean(words, text);
    FiltersIdempotent(words, text);
  }

  // ----- when the rewriting is visible at all

  /** The only words whose masking can leave a text unchanged. */
  ghost predicate NoShortStars(words: set<string>) {
    "*" !in words && "**" !in words && "***" !in words
  }

  function NonStars(s: string): nat {
    if s == "" then 0 else (if s[0] == '*' then 0 else 1) + NonStars(s[1..])
  }

  lemma {:induction false} NonStarsAppend(a: string, b: string)
    ensures NonStars(a + b) == NonStars(a) + NonStars(b)
  {
    if a != "" {
      assert (a + b)[1..] == a[1..] + b;
      NonStarsAppend(a[1..], b);
    } else {
      assert a + b == b;
    }
  }

  lemma {:induction false} NoneMeansAllStars(s: string)
    requires NonStars(s) == 0
    ensures forall i :: 0 <= i < |s| ==> s[i] == '*'
  {
    if s != "" {
      NoneMeansAllStars(s[1..]);
      assert forall i :: 0 < i < |s| ==> s[i] == s[1..][i - 1];
    }
  }

  /** Every block removes its non-star characters and replaces its length by three. */
  ghost predicate Shrinks(text: string, blocks: seq<Span>)
    requires WellFormed(blocks, |text|)
  {
    forall b :: b in blocks ==> NonStars(text[b.start..b.end]) > 0 || b.end - b.start > 3
  }

  /** Rendering never adds a non-star character, and among renderings that keep all of them
      the length never grows; with at least one block something is lost. */
  lemma {:induction false} RenderLoses(text: string, blocks: seq<Span>, prev: nat)
    requires WellFormed(blocks, |text|) && Separated(blocks) && Shrinks(text, blocks)
    requires prev <= |text| && (blocks != [] ==> prev <= blocks[0].start)
    ensures var r, t := Render(text, blocks, prev), text[prev..];
            NonStars(r) < NonStars(t) ||
            (NonStars(r) == NonStars(t) && if blocks == [] then r == t else |r| < |t|)
    decreases |blocks|
  {
    if blocks != [] {
      var b, rest := blocks[0], blocks[1..];
      SeparatedTail(blocks, |text|);
      assert b in blocks && forall x :: x in rest ==> x in blocks;
      RenderLoses(text, rest, b.end);
      RenderLosesOne(text, b, prev, Render(text, rest, b.end));
    }
  }

  lemma RenderLosesOne(text: string, b: Span, prev: nat, tail: string)
    requires prev <= b.start < b.end <= |text|
    requires NonStars(text[b.start..b.end]) > 0 || b.end - b.start > 3
    requires NonStars(tail) < NonStars(text[b.end..]) ||
             (NonStars(tail) == NonStars(text[b.end..]) && |tail| <= |text[b.end..]|)
    ensures var r, t := text[prev..b.start] + REPLACEMENT + tail, text[prev..];
            NonStars(r) < NonStars(t) || (NonStars(r) == NonStars(t) && |r| < |t|)
  {
    var kept, cut, after := text[prev..b.start], text[b.start..b.end], text[b.end..];
    assert text[prev..] == kept + (cut + after);
    assert NonStars(REPLACEMENT) == 0 by {
      assert REPLACEMENT[1..] == "**" && "**"[1..] == "*" && "*"[1..] == "";
    }
    NonStarsAppend(kept, cut + after);
    NonStarsAppend(cut, after);
    NonStarsAppend(kept + REPLACEMENT, tail);
    NonStarsAppend(kept, REPLACEMENT);
  }

  lemma StarWordIsLong(words: set<string>, w: string)
    requires NoShortStars(words) && w in words && w != "" && forall i :: 0 <= i < |w| ==> w[i] == '*'
    ensures |w| > 3
  {
    assert |w| == 1 ==> w == "*";
    assert |w| == 2 ==> w == "**";
    assert |w| == 3 ==> w == "***";
  }

  /** A block either loses a non-star character or holds a whole star word of length over three. */
  lemma BlockShrinks(words: set<string>, text: string, b: Span, h: Span)
    requires NoShortStars(words) && b.start < b.end <= |text|
    requires Occurs(words, Lower(text), h.start, h.end) && h.start == b.start && h.end <= b.end
    ensures NonStars(text[b.start..b.end]) > 0 || b.end - b.start > 3
  {
    var cut, w := text[b.start..b.end], Lower(text)[h.start..h.end];
    if NonStars(cut) == 0 {
      NoneMeansAllStars(cut);
      assert forall i :: 0 <= i < |w| ==> w[i] == LowerChar(cut[i]);
      StarWordIsLong(words, w);
    }
  }

  /** Rewriting any non-empty list of occurrences is visible. */
  lemma RewritingShows(words: set<string>, text: string, hits: seq<Span>)
    requires NoShortStars(words) && hits != [] && WellFormed(hits, |text|)
    requires forall h :: h in hits ==> Occurs(words, Lower(text), h.start, h.end)
    ensures Mask(text, Cells(Merge(hits), |text|)) != text
  {
    var blocks := Merge(hits);
    MergeShape(hits, |text|);
    forall b | b in blocks ensures NonStars(text[b.start..b.end]) > 0 || b.end - b.start > 3 {
      var n :| 0 <= n < |blocks| && blocks[n] == b;
      var h := BlockHoldsHit(hits, n);
      BlockShrinks(words, text, b, h);
    }
    RenderLoses(text, blocks, 0);
    assert text[0..] == text;
    RenderIsMask(text, blocks);
  }

  lemma HitShows(words: set<string>, text: string)
    requires NoShortStars(words) && Hit(words, Lower(text))
    ensures DfaOutput(words, text) != text && AcOutput(words, text) != text
  {
    var low := Lower(text);
    var starts, ends := StartHits(words, low, |low|), EndHits(words, low, |low|);
    var i, j :| Occurs(words, low, i, j);
    var s := LongestAtStart(words, low, i, j);
    var e := LongestAtEnd(words, low, i, j);
    HitsWellFormed(words, low, |low|);
    forall h | h in starts ensures Occurs(words, low, h.start, h.end) {
      StartHitsExact(words, low, |low|, h);
    }
    forall h | h in ends ensures Occurs(words, low, h.start, h.end) {
      EndHitsExact(words, low, |low|, h);
    }
    RewritingShows(words, text, starts);
    RewritingShows(words, text, ends);
    DfaMasksCoverage(words, low);
  }

  lemma StarEnds(words: set<string>)
    ensures LongestSuffix(words, "***"[..1]) == if "*" in words then 1 else 0
    ensures LongestSuffix(words, "***"[..2]) ==
              if "**" in words then 2 else LongestSuffix(words, "***"[..1])
    ensures LongestSuffix(words, "***"[..3]) ==
              if "***" in words then 3 else LongestSuffix(words, "***"[..2])
  {
    assert "***"[..1] == "*" && "***"[..2] == "**" && "***"[..3] == "***";
    assert "*"[1..] == "" && "**"[1..] == "*" && "***"[1..] == "**";
  }

  lemma StarTrace(words: set<string>)
    requires !NoShortStars(words)
    ensures AcMasked(words, "***") == {0, 1, 2}
  {
    StarEnds(words);
    BlocksOfThree(words, "***");
    StarBlocks("*" in words, "**" in words, "***" in words);
  }

  /** Whichever of the three words there are, their matches fuse to one block. */
  lemma StarBlocks(one: bool, two: bool, three: bool)
    requires one || two || three
    ensures var l1 := if one then 1 else 0; var l2 := if two then 2 else l1; var l3 := if three then 3 else l2;
            Cells(NextBlocks(NextBlocks(NextBlocks([], l1, 1), l2, 2), l3, 3), 3) == {0, 1, 2}
  {
    var l1 := if one then 1 else 0;
    var l2 := if two then 2 else l1;
    var l3 := if three then 3 else l2;
    FirstBlock(l1, 1);
    if l1 > 0 {
      OneBlock(Span(0, 1), l2, 2);
    } else {
      FirstBlock(l2, 2);
    }
    if l2 > 0 {
      OneBlock(Span(0, 2), l3, 3);
    } else {
      FirstBlock(l3, 3);
    }
    assert [Span(0, 3)][0] == Span(0, 3);
  }

  /** With a word of one to three stars the text "***" is hit but comes out unchanged. */
  lemma ShortStarsHide(words: set<string>)
    requires !NoShortStars(words)
    ensures Hit(words, Lower("***"))
    ensures DfaOutput(words, "***") == "***" && AcOutput(words, "***") == "***"
  {
    var t := "***";
    assert Lower(t) == t;
    StarTrace(words);
    AcMaskedCovered(words, t);
    MaskRun(t, AcMasked(words, t), 0, 3);
    MaskRun(t, Covered(words, t), 0, 3);
    assert 0 in AcMasked(words, t);
    assert CoveredAt(words, t, 0);
  }

  /** "The output differs from the input" is a correct test for a hit, for all texts and for
      either filter, if and only if none of "*", "**" and "***" is a word. The automaton's
      `contains` and the sensitive flag of a sent message use this test; the trie's
      `contains` does not. */
  lemma DifferenceTestExactly(words: set<string>)
    ensures (forall text :: Hit(words, Lower(text)) <==> DfaOutput(words, text) != text) <==> NoShortStars(words)
    ensures (forall text :: Hit(words, Lower(text)) <==> AcOutput(words, text) != text) <==> NoShortStars(words)
  {
    if NoShortStars(words) {
      forall text
        ensures Hit(words, Lower(text)) <==> DfaOutput(words, text) != text
        ensures Hit(words, Lower(text)) <==> AcOutput(words, text) != text
      {
        if Hit(words, Lower(text)) {
          HitShows(words, text);
        } else {
          NothingHit(words, text);
        }
      }
    } else {
      ShortStarsHide(words);
    }
  }
}
