/** The shared back end of both filters: fusing hit intervals and rewriting the text. */
module HitMerge {
  import opened Basics

  const REPLACEMENT := "***"

  /** A half-open interval [start, end) of text positions. */
  datatype Span = Span(start: nat, end: nat)

  predicate WellFormed(hits: seq<Span>, size: nat) {
    forall h :: h in hits ==> h.start < h.end <= size
  }

  /** Blocks are in text order with at least one free position between neighbours. */
  predicate Separated(blocks: seq<Span>) {
    forall i, j :: 0 <= i < j < |blocks| ==> blocks[i].end < blocks[j].start
  }

  predicate Inside(spans: seq<Span>, k: int) {
    exists n :: 0 <= n < |spans| && spans[n].start <= k < spans[n].end
  }

  /** The text positions below `size` that lie in some span. */
  function Cells(spans: seq<Span>, size: nat): set<int> {
    set k | 0 <= k < size && Inside(spans, k)
  }

  /** The reference rewriting: every maximal run of masked positions becomes exactly one
      replacement, every other character is kept in order. */
  function Mask(text: string, masked: set<int>, i: nat := 0): string
    requires i <= |text|
    decreases |text| - i
  {
    if i == |text| then ""
    else if i !in masked then [text[i]] + Mask(text, masked, i + 1)
    else if i + 1 < |text| && i + 1 in masked then Mask(text, masked, i + 1)
    else REPLACEMENT + Mask(text, masked, i + 1)
  }

  /** How one hit joins the blocks collected so far: it is fused into the last block when it
      starts inside or right behind it. Fusing never lowers a block's start. */
  function Absorb(blocks: seq<Span>, h: Span): seq<Span> {
    var n := |blocks|;
    if n > 0 && h.start <= blocks[n - 1].end then
      blocks[..n - 1] + [Span(blocks[n - 1].start, Max(blocks[n - 1].end, h.end))]
    else
      blocks + [h]
  }

  function Merge(hits: seq<Span>): seq<Span> {
    if hits == [] then [] else Absorb(Merge(hits[..|hits| - 1]), hits[|hits| - 1])
  }

  /** The text with each block replaced, starting at position `prev`. */
  function Render(text: string, blocks: seq<Span>, prev: nat := 0): string
    requires WellFormed(blocks, |text|) && Separated(blocks)
    requires prev <= |text| && (blocks != [] ==> prev <= blocks[0].start)
    decreases |blocks|
  {
    if blocks == [] then text[prev..]
    else
      text[prev..blocks[0].start] + REPLACEMENT + Render(text, blocks[1..], blocks[0].end)
  }

  lemma {:induction false} MergeShape(hits: seq<Span>, size: nat)
    requires WellFormed(hits, size)
    ensures WellFormed(Merge(hits), size) && Separated(Merge(hits))
    ensures hits != [] ==> Merge(hits) != []
  {
    if hits != [] {
      MergeShape(hits[..|hits| - 1], size);
      AbsorbShape(Merge(hits[..|hits| - 1]), hits[|hits| - 1], size);
    }
  }

  lemma AbsorbShape(blocks: seq<Span>, h: Span, size: nat)
    requires WellFormed(blocks, size) && Separated(blocks) && h.start < h.end <= size
    ensures WellFormed(Absorb(blocks, h), size) && Separated(Absorb(blocks, h))
  {
  }

  /** What one absorbed hit adds to the masked positions, for hits in any order. */
  lemma AbsorbCells(blocks: seq<Span>, h: Span, k: int)
    ensures Inside(Absorb(blocks, h), k) <==>
              (Inside(blocks, k) ||
              if blocks != [] && h.start <= blocks[|blocks| - 1].end
              then blocks[|blocks| - 1].start <= k && blocks[|blocks| - 1].end <= k < h.end
              else h.start <= k < h.end)
  {
    var r := Absorb(blocks, h);
    var n := |blocks|;
    if n > 0 && h.start <= blocks[n - 1].end {
      assert forall i :: 0 <= i < n - 1 ==> r[i] == blocks[i];
      assert r[n - 1] == Span(blocks[n - 1].start, Max(blocks[n - 1].end, h.end));
    } else {
      assert forall i :: 0 <= i < n ==> r[i] == blocks[i];
      assert r[n] == h;
    }
  }

  lemma AbsorbKeeps(blocks: seq<Span>, h: Span, k: int)
    requires Inside(blocks, k)
    ensures Inside(Absorb(blocks, h), k)
  {
    AbsorbCells(blocks, h, k);
  }

  /** A hit that ends behind all blocks gets at least its last position masked. */
  lemma AbsorbMasksEnd(blocks: seq<Span>, h: Span)
    requires h.start < h.end && WellFormed(blocks, h.end - 1)
    ensures Inside(Absorb(blocks, h), h.end - 1)
  {
    AbsorbCells(blocks, h, h.end - 1);
    if blocks != [] {
      assert blocks[|blocks| - 1] in blocks;
    }
  }

  /** Every block was opened by one of the hits and still contains it whole. */
  lemma {:induction false} BlockHoldsHit(hits: seq<Span>, n: nat) returns (h: Span)
    requires n < |Merge(hits)|
    ensures h in hits && h.start == Merge(hits)[n].start && h.end <= Merge(hits)[n].end
  {
    var before := Merge(hits[..|hits| - 1]);
    if n < |before| {
      h := BlockHoldsHit(hits[..|hits| - 1], n);
    } else {
      h := hits[|hits| - 1];
    }
  }

  lemma InsideSnoc(hits: seq<Span>, h: Span, k: int)
    ensures Inside(hits + [h], k) <==> Inside(hits, k) || h.start <= k < h.end
  {
    assert forall i :: 0 <= i < |hits| ==> (hits + [h])[i] == hits[i];
    assert (hits + [h])[|hits|] == h;
  }

  /** Merging never masks a position outside the hits. */
  lemma {:induction false} MergeInside(hits: seq<Span>, k: int)
    ensures Inside(Merge(hits), k) ==> Inside(hits, k)
  {
    if hits != [] {
      var init, h := hits[..|hits| - 1], hits[|hits| - 1];
      assert hits == init + [h];
      MergeInside(init, k);
      AbsorbCells(Merge(init), h, k);
      InsideSnoc(init, h, k);
    }
  }

  predicate StartsAscend(hits: seq<Span>) {
    forall i, j :: 0 <= i < j < |hits| ==> hits[i].start <= hits[j].start
  }

  /** A hit that does not start before the last block is masked completely. */
  lemma AbsorbInOrder(blocks: seq<Span>, h: Span, k: int)
    requires blocks != [] ==> blocks[|blocks| - 1].start <= h.start
    ensures Inside(Absorb(blocks, h), k) <==> Inside(blocks, k) || h.start <= k < h.end
  {
    AbsorbCells(blocks, h, k);
    if blocks != [] {
      var last := blocks[|blocks| - 1];
      assert last.start <= k < last.end ==> Inside(blocks, k);
    }
  }

  /** Hits that come in order of their start positions are masked completely. */
  lemma {:induction false} SortedStartsKeepAll(hits: seq<Span>, k: int)
    requires StartsAscend(hits)
    ensures Inside(Merge(hits), k) <==> Inside(hits, k)
  {
    if hits != [] {
      var init, h := hits[..|hits| - 1], hits[|hits| - 1];
      assert hits == init + [h];
      SortedStartsKeepAll(init, k);
      InsideSnoc(init, h, k);
      var blocks := Merge(init);
      if blocks != [] {
        var opener := BlockHoldsHit(init, |blocks| - 1);
        assert opener in init && opener.start <= h.start;
      }
      AbsorbInOrder(blocks, h, k);
    }
  }

  // ----- Render meets Mask

  lemma Assoc(a: string, b: string, c: string)
    ensures a + (b + c) == (a + b) + c
  {
  }

  lemma SliceHead(text: string, i: nat, j: nat)
    requires i < j <= |text|
    ensures text[i..j] == [text[i]] + text[i + 1..j]
  {
  }

  lemma {:induction false} MaskKeeps(text: string, masked: set<int>, i: nat, j: nat)
    requires i <= j <= |text|
    requires forall k :: i <= k < j ==> k !in masked
    ensures Mask(text, masked, i) == text[i..j] + Mask(text, masked, j)
    decreases j - i
  {
    if i < j {
      MaskKeeps(text, masked, i + 1, j);
      SliceHead(text, i, j);
      Assoc([text[i]], text[i + 1..j], Mask(text, masked, j));
    } else {
      assert text[i..j] == "";
    }
  }

  lemma {:induction false} MaskRun(text: string, masked: set<int>, i: nat, j: nat)
    requires i < j <= |text|
    requires forall k :: i <= k < j ==> k in masked
    requires j < |text| ==> j !in masked
    ensures Mask(text, masked, i) == REPLACEMENT + Mask(text, masked, j)
    decreases j - i
  {
    if i + 1 < j {
      MaskRun(text, masked, i + 1, j);
    }
  }

  /** Membership in all blocks, seen from behind the first one. */
  lemma InsideTail(blocks: seq<Span>, k: int)
    requires blocks != [] && blocks[0].end <= k
    ensures Inside(blocks, k) <==> Inside(blocks[1..], k)
  {
  }

  lemma SeparatedTail(blocks: seq<Span>, size: nat)
    requires WellFormed(blocks, size) && Separated(blocks) && blocks != []
    ensures WellFormed(blocks[1..], size) && Separated(blocks[1..])
    ensures |blocks| > 1 ==> blocks[0].end < blocks[1].start
    ensures forall k :: k < blocks[0].start ==> !Inside(blocks, k)
    ensures forall k :: blocks[0].start <= k < blocks[0].end ==> Inside(blocks, k)
    ensures !Inside(blocks, blocks[0].end)
  {
  }

  lemma {:induction false} RenderFrom(text: string, blocks: seq<Span>, prev: nat, masked: set<int>)
    requires WellFormed(blocks, |text|) && Separated(blocks)
    requires prev <= |text| && (blocks != [] ==> prev <= blocks[0].start)
    requires forall k :: prev <= k < |text| ==> (k in masked <==> Inside(blocks, k))
    ensures Render(text, blocks, prev) == Mask(text, masked, prev)
    decreases |blocks|
  {
    if blocks == [] {
      MaskKeeps(text, masked, prev, |text|);
      assert text[prev..|text|] + "" == text[prev..];
    } else {
      var b, rest := blocks[0], blocks[1..];
      SeparatedTail(blocks, |text|);
      assert b in blocks;
      forall k | b.end <= k < |text| ensures k in masked <==> Inside(rest, k) {
        InsideTail(blocks, k);
      }
      RenderFrom(text, rest, b.end, masked);
      MaskRun(text, masked, b.start, b.end);
      MaskKeeps(text, masked, prev, b.start);
      Assoc(text[prev..b.start], REPLACEMENT, Mask(text, masked, b.end));
    }
  }

  /** Rewriting separated blocks is exactly the reference rewriting of their positions. */
  lemma RenderIsMask(text: string, blocks: seq<Span>)
    requires WellFormed(blocks, |text|) && Separated(blocks)
    ensures Render(text, blocks) == Mask(text, Cells(blocks, |text|))
  {
    RenderFrom(text, blocks, 0, Cells(blocks, |text|));
  }

  /** The first loop of `_replace_hits`. */
  method FuseHits(hits: seq<Span>) returns (merged: seq<Span>)
    ensures merged == Merge(hits)
  {
    merged := [];
    for i := 0 to |hits|
      invariant merged == Merge(hits[..i])
    {
      var h := hits[i];
      assert hits[..i + 1][..i] == hits[..i];
      var n := |merged|;
      if n > 0 && h.start <= merged[n - 1].end {
        merged := merged[n - 1 := Span(merged[n - 1].start, Max(merged[n - 1].end, h.end))];
      } else {
        merged := merged + [h];
      }
    }
    assert hits[..|hits|] == hits;
  }

  /** The second loop of `_replace_hits`. */
  method WriteOut(text: string, merged: seq<Span>) returns (out: string)
    requires WellFormed(merged, |text|) && Separated(merged)
    ensures out == Mask(text, Cells(merged, |text|))
  {
    out := "";
    var prev: nat := 0;
    assert merged[0..] == merged;
    for i := 0 to |merged|
      invariant prev <= |text| && (i < |merged| ==> prev <= merged[i].start)
      invariant WellFormed(merged[i..], |text|) && Separated(merged[i..])
      invariant out + Render(text, merged[i..], prev) == Render(text, merged)
    {
      var b := merged[i];
      ghost var here, rest := merged[i..], merged[i + 1..];
      assert here[0] == b && here[1..] == rest && b in here;
      SeparatedTail(here, |text|);
      assert i + 1 < |merged| ==> here[1] == merged[i + 1];
      Assoc(out, text[prev..b.start] + REPLACEMENT, Render(text, rest, b.end));
      Assoc(out, text[prev..b.start], REPLACEMENT);
      out := out + text[prev..b.start] + REPLACEMENT;
      prev := b.end;
    }
    out := out + text[prev..];
    RenderIsMask(text, merged);
  }

  /** `_replace_hits`, for hits in any order. */
  method ReplaceHits(text: string, hits: seq<Span>) returns (r: string)
    requires WellFormed(hits, |text|)
    ensures r == Mask(text, Cells(Merge(hits), |text|))
  {
    MergeShape(hits, |text|);
    if hits == [] {
      RenderIsMask(text, []);
      return text;
    }
    var merged := FuseHits(hits);
    r := WriteOut(text, merged);
  }
}
