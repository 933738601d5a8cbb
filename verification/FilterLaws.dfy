/** What the default filter makes of a text, stated without its parts: the output falls apart at
    every character that no word covers, and a text that is covered whole is one replacement. */
module FilterLaws {
  import opened Text
  import opened Words
  import opened HitMerge
  import opened Matching

  /** What is written at one position: the character itself, a replacement at the end of a
      masked run, or nothing. */
  ghost function Piece(text: string, masked: set<int>, i: nat): string
    requires i < |text|
  {
    if i !in masked then [text[i]] else if i + 1 < |text| && i + 1 in masked then "" else REPLACEMENT
  }

  lemma MaskStep(text: string, masked: set<int>, i: nat)
    requires i < |text|
    ensures Mask(text, masked, i) == Piece(text, masked, i) + Mask(text, masked, i + 1)
  {
  }

  /** An unmasked character separates what is written before it from what is written behind it. */
  lemma {:induction false} MaskSplits(text: string, masked: set<int>, head: string, left: set<int>, i: nat, p: nat)
    requires i <= p < |text| && p !in masked && head == text[..p]
    requires forall k :: i <= k < p ==> (k in left <==> k in masked)
    ensures Mask(text, masked, i) == Mask(head, left, i) + ([text[p]] + Mask(text, masked, p + 1))
    decreases p - i
  {
    MaskStep(text, masked, i);
    if i < p {
      MaskStep(head, left, i);
      MaskSplits(text, masked, head, left, i + 1, p);
      Assoc(Piece(head, left, i), Mask(head, left, i + 1), [text[p]] + Mask(text, masked, p + 1));
    }
  }

  ghost predicate Agree(right: set<int>, masked: set<int>, p: nat, x: int) {
    x in right <==> p + x in masked
  }

  lemma PieceShifts(text: string, masked: set<int>, tail: string, right: set<int>, p: nat, k: nat)
    requires p + k < |text| && tail == text[p..] && Agree(right, masked, p, k)
    requires k + 1 < |tail| ==> Agree(right, masked, p, k + 1)
    ensures Piece(tail, right, k) == Piece(text, masked, p + k)
  {
  }

  lemma StepShifts(text: string, masked: set<int>, tail: string, right: set<int>, k: nat, q: nat)
    requires k < |tail| && q < |text| && Piece(tail, right, k) == Piece(text, masked, q)
    requires Mask(tail, right, k + 1) == Mask(text, masked, q + 1)
    ensures Mask(tail, right, k) == Mask(text, masked, q)
  {
    MaskStep(tail, right, k);
    MaskStep(text, masked, q);
  }

  ghost predicate SamePiece(text: string, masked: set<int>, tail: string, right: set<int>, p: nat, x: nat) {
    x < |tail| && p + x < |text| && Piece(tail, right, x) == Piece(text, masked, p + x)
  }

  lemma {:induction false} PiecesShift(text: string, masked: set<int>, tail: string, right: set<int>, p: nat, k: nat)
    requires |tail| == |text| - p && k <= |tail|
    requires forall x: nat :: k <= x < |tail| ==> SamePiece(text, masked, tail, right, p, x)
    ensures Mask(tail, right, k) == Mask(text, masked, p + k)
    decreases |tail| - k
  {
    if k < |tail| {
      PiecesShift(text, masked, tail, right, p, k + 1);
      assert SamePiece(text, masked, tail, right, p, k);
      StepShifts(text, masked, tail, right, k, p + k);
    }
  }

  lemma MaskShifts(text: string, masked: set<int>, tail: string, right: set<int>, p: nat)
    requires p <= |text| && tail == text[p..]
    requires forall x :: 0 <= x < |tail| ==> Agree(right, masked, p, x)
    ensures Mask(tail, right, 0) == Mask(text, masked, p)
  {
    forall x: nat | x < |tail| ensures SamePiece(text, masked, tail, right, p, x) {
      PieceShifts(text, masked, tail, right, p, x);
    }
    PiecesShift(text, masked, tail, right, p, 0);
  }

  /** No word occurs across the position. */
  ghost predicate Free(words: set<string>, low: string, p: nat) {
    forall i, j :: 0 <= i <= p < j <= |low| ==> low[i..j] !in words
  }

  lemma CoveredLeft(words: set<string>, low: string, p: nat, k: nat)
    requires k < p < |low| && Free(words, low, p)
    ensures CoveredAt(words, low[..p], k) <==> CoveredAt(words, low, k)
  {
    if CoveredAt(words, low[..p], k) {
      var i, j :| Occurs(words, low[..p], i, j) && i <= k < j;
      assert low[..p][i..j] == low[i..j];
      assert Occurs(words, low, i, j);
    }
    if CoveredAt(words, low, k) {
      var i, j :| Occurs(words, low, i, j) && i <= k < j;
      assert j <= p && low[..p][i..j] == low[i..j];
      assert Occurs(words, low[..p], i, j);
    }
  }

  lemma CoveredRight(words: set<string>, low: string, p: nat, k: nat)
    requires p + 1 + k < |low| && Free(words, low, p)
    ensures CoveredAt(words, low[p + 1..], k) <==> CoveredAt(words, low, p + 1 + k)
  {
    var d := p + 1;
    if CoveredAt(words, low[d..], k) {
      var i, j :| Occurs(words, low[d..], i, j) && i <= k < j;
      assert low[d..][i..j] == low[d + i..d + j];
      assert Occurs(words, low, d + i, d + j);
    }
    if CoveredAt(words, low, d + k) {
      var i, j :| Occurs(words, low, i, j) && i <= d + k < j;
      assert d <= i && low[d..][i - d..j - d] == low[i..j];
      assert Occurs(words, low[d..], i - d, j - d);
    }
  }

  lemma LowerParts(text: string, p: nat)
    requires p <= |text|
    ensures Lower(text[..p]) == Lower(text)[..p] && Lower(text[p..]) == Lower(text)[p..]
  {
  }

  lemma Regroup(a: string, b: string, c: string)
    ensures a + b + c == a + (b + c)
  {
  }

  /** A character at which no word sits is written as it is, case included, and what stands
      before and behind it is filtered as if it stood alone. */
  lemma OutputSplits(words: set<string>, text: string, p: nat)
    requires p < |text|
    requires forall i, j :: 0 <= i <= p < j <= |text| ==> Lower(text)[i..j] !in words
    ensures DfaOutput(words, text) == DfaOutput(words, text[..p]) + [text[p]] + DfaOutput(words, text[p + 1..])
  {
    var low := Lower(text);
    var masked, left, right := Covered(words, low), low[..p], low[p + 1..];
    LowerParts(text, p);
    LowerParts(text, p + 1);
    forall k | 0 <= k < p ensures CoveredAt(words, left, k) <==> CoveredAt(words, low, k) {
      CoveredLeft(words, low, p, k);
    }
    forall k | 0 <= k < |text| - p - 1
      ensures CoveredAt(words, right, k) <==> CoveredAt(words, low, p + 1 + k)
    {
      CoveredRight(words, low, p, k);
    }
    MaskSplits(text, masked, text[..p], Covered(words, left), 0, p);
    MaskShifts(text, masked, text[p + 1..], Covered(words, right), p + 1);
    Regroup(DfaOutput(words, text[..p]), [text[p]], DfaOutput(words, text[p + 1..]));
  }

  /** A text all of whose characters belong to words is replaced as a whole, however many words
      there are and however they overlap or touch. */
  lemma OutputWhole(words: set<string>, text: string)
    requires text != "" && forall k :: 0 <= k < |text| ==> CoveredAt(words, Lower(text), k)
    ensures DfaOutput(words, text) == "***"
  {
    MaskRun(text, Covered(words, Lower(text)), 0, |text|);
  }

  // ----- the same for the automaton

  ghost function Shifted(blocks: seq<Span>, d: nat): (r: seq<Span>)
    ensures |r| == |blocks|
    ensures forall n :: 0 <= n < |blocks| ==> r[n] == Span(blocks[n].start + d, blocks[n].end + d)
  {
    seq(|blocks|, n requires 0 <= n < |blocks| => Span(blocks[n].start + d, blocks[n].end + d))
  }

  ghost function ShiftedSpan(h: Span, d: nat): Span {
    Span(h.start + d, h.end + d)
  }

  /** A hit behind all earlier blocks is merged with the later ones only. */
  lemma AbsorbShifts(left: seq<Span>, right: seq<Span>, h: Span, d: nat)
    requires left != [] ==> left[|left| - 1].end < d
    ensures Absorb(left + Shifted(right, d), ShiftedSpan(h, d)) == left + Shifted(Absorb(right, h), d)
  {
    var moved := Shifted(right, d);
    if right == [] {
      assert left + moved == left;
      assert Absorb(right, h) == [h];
      assert Shifted([h], d) == [ShiftedSpan(h, d)];
    } else {
      AbsorbBehind(left, moved, ShiftedSpan(h, d));
      AbsorbMoved(right, h, d);
    }
  }

  lemma AbsorbBehind(left: seq<Span>, moved: seq<Span>, h: Span)
    requires moved != []
    ensures Absorb(left + moved, h) == left + Absorb(moved, h)
  {
    var all := left + moved;
    assert all[|all| - 1] == moved[|moved| - 1];
    assert all[..|all| - 1] == left + moved[..|moved| - 1];
  }

  lemma AbsorbMoved(right: seq<Span>, h: Span, d: nat)
    requires right != []
    ensures Absorb(Shifted(right, d), ShiftedSpan(h, d)) == Shifted(Absorb(right, h), d)
  {
  }

  lemma NextShifts(left: seq<Span>, right: seq<Span>, len: nat, n: nat, d: nat)
    requires d + len <= n && (left != [] ==> left[|left| - 1].end < d)
    ensures NextBlocks(left + Shifted(right, d), len, n) == left + Shifted(NextBlocks(right, len, n - d), d)
  {
    if len > 0 {
      var h := Span(n - d - len, n - d);
      assert ShiftedSpan(h, d) == Span(n - len, n);
      AbsorbShifts(left, right, h, d);
    }
  }

  /** The longest word ending behind a free position lies behind it. */
  lemma SuffixBehind(words: set<string>, low: string, right: string, d: nat, n: nat)
    requires 0 < d <= n <= |low| && Free(words, low, d - 1) && right == low[d..]
    ensures LongestSuffix(words, low[..n]) == LongestSuffix(words, right[..n - d]) <= n - d
  {
    var s := low[..n];
    var len := LongestSuffix(words, s);
    if len > 0 {
      LongestSuffixWord(words, s);
      assert s[n - len..] == low[n - len..n];
    }
    LongestSuffixWindow(words, s, d);
    assert s[d..] == right[..n - d];
  }

  /** Up to a free position the blocks are those of the part before it. */
  lemma {:induction false} TraceLeft(words: set<string>, low: string, left: string, whole: seq<seq<Span>>,
                                     part: seq<seq<Span>>, n: nat)
    requires n <= |left| <= |low| && left == low[..|left|]
    requires Traced(words, low, whole) && Traced(words, left, part)
    ensures whole[n] == part[n]
  {
    if n > 0 {
      TraceLeft(words, low, left, whole, part, n - 1);
      assert AcStep(words, low, whole, n) && AcStep(words, left, part, n);
      assert left[..n] == low[..n];
    }
  }

  lemma TraceAtFree(words: set<string>, low: string, right: string, d: nat, whole: seq<seq<Span>>)
    requires 0 < d <= |low| && Free(words, low, d - 1) && right == low[d..] && Traced(words, low, whole)
    ensures whole[d] == whole[d - 1]
  {
    assert AcStep(words, low, whole, d);
    SuffixBehind(words, low, right, d, d);
  }

  /** Behind it the blocks before stay, and those of the rest are added. */
  lemma {:induction false} TraceRight(words: set<string>, low: string, right: string, d: nat,
                                      whole: seq<seq<Span>>, part: seq<seq<Span>>, n: nat)
    requires 0 < d <= n <= |low| && Free(words, low, d - 1) && right == low[d..]
    requires Traced(words, low, whole) && Traced(words, right, part)
    requires whole[d] != [] ==> whole[d][|whole[d]| - 1].end < d
    ensures whole[n] == whole[d] + Shifted(part[n - d], d)
  {
    if n == d {
      assert Shifted(part[0], d) == [];
    } else {
      TraceRight(words, low, right, d, whole, part, n - 1);
      assert AcStep(words, low, whole, n) && AcStep(words, right, part, n - d);
      SuffixBehind(words, low, right, d, n);
      NextShifts(whole[d], part[n - 1 - d], LongestSuffix(words, low[..n]), n, d);
    }
  }

  lemma InsideBoth(left: seq<Span>, right: seq<Span>, d: nat, k: int)
    ensures Inside(left + Shifted(right, d), k) <==> Inside(left, k) || Inside(right, k - d)
  {
    var all, moved := left + Shifted(right, d), Shifted(right, d);
    if Inside(left, k) {
      var n :| 0 <= n < |left| && left[n].start <= k < left[n].end;
      assert all[n] == left[n];
    }
    if Inside(right, k - d) {
      var n :| 0 <= n < |right| && right[n].start <= k - d < right[n].end;
      assert all[|left| + n] == moved[n];
    }
    if Inside(all, k) {
      var n :| 0 <= n < |all| && all[n].start <= k < all[n].end;
      assert n < |left| ==> all[n] == left[n];
      assert n >= |left| ==> all[n] == moved[n - |left|];
    }
  }

  lemma InsideBound(blocks: seq<Span>, size: nat, k: int)
    requires WellFormed(blocks, size) && Inside(blocks, k)
    ensures 0 <= k < size
  {
    var n :| 0 <= n < |blocks| && blocks[n].start <= k < blocks[n].end;
    assert blocks[n] in blocks;
  }

  lemma CellsBoth(l: seq<Span>, r: seq<Span>, p: nat, size: nat, k: int)
    requires p < size && 0 <= k < size && WellFormed(l, p) && WellFormed(r, size - p - 1)
    ensures k in Cells(l + Shifted(r, p + 1), size) <==> k in Cells(l, p) || k - p - 1 in Cells(r, size - p - 1)
  {
    InsideBoth(l, r, p + 1, k);
    if Inside(l, k) {
      InsideBound(l, p, k);
    }
    if Inside(r, k - p - 1) {
      InsideBound(r, size - p - 1, k - p - 1);
    }
  }

  lemma LastEnds(blocks: seq<Span>, size: nat)
    requires WellFormed(blocks, size) && blocks != []
    ensures blocks[|blocks| - 1].end <= size
  {
    assert blocks[|blocks| - 1] in blocks;
  }

  lemma TraceSplits(words: set<string>, low: string, left: string, right: string, whole: seq<seq<Span>>,
                    before: seq<seq<Span>>, behind: seq<seq<Span>>)
    requires |left| < |low| && Free(words, low, |left|)
    requires left == low[..|left|] && right == low[|left| + 1..]
    requires Traced(words, low, whole) && Traced(words, left, before) && Traced(words, right, behind)
    ensures whole[|low|] == before[|left|] + Shifted(behind[|right|], |left| + 1)
    ensures WellFormed(before[|left|], |left|) && WellFormed(behind[|right|], |right|)
  {
    TraceShape(words, left, before, |left|);
    TraceShape(words, right, behind, |right|);
    TraceLeft(words, low, left, whole, before, |left|);
    TraceAtFree(words, low, right, |left| + 1, whole);
    if before[|left|] != [] {
      LastEnds(before[|left|], |left|);
    }
    TraceRight(words, low, right, |left| + 1, whole, behind, |low|);
  }

  /** What the automaton masks of the parts is what it masks of the whole text. */
  lemma PartsMasked(words: set<string>, low: string, left: string, right: string, d: nat,
                    whole: seq<seq<Span>>, before: seq<seq<Span>>, behind: seq<seq<Span>>)
    requires |left| < |low| && Free(words, low, |left|) && d == |left| + 1
    requires left == low[..|left|] && right == low[d..]
    requires Traced(words, low, whole) && Traced(words, left, before) && Traced(words, right, behind)
    ensures var all := Cells(whole[|low|], |low|);
            |left| !in all &&
            (forall k :: 0 <= k < |left| ==> (k in Cells(before[|left|], |left|) <==> k in all)) &&
            (forall k :: 0 <= k < |right| ==> Agree(Cells(behind[|right|], |right|), all, d, k))
  {
    TraceSplits(words, low, left, right, whole, before, behind);
    var all, l, r := Cells(whole[|low|], |low|), Cells(before[|left|], |left|), Cells(behind[|right|], |right|);
    forall k | 0 <= k < |low| ensures k in all <==> k in l || k - |left| - 1 in r {
      CellsBoth(before[|left|], behind[|right|], |left|, |low|, k);
    }
  }

  lemma AcMaskedTrace(words: set<string>, low: string) returns (trace: seq<seq<Span>>, masked: set<int>)
    ensures Traced(words, low, trace) && masked == Cells(trace[|low|], |low|)
    ensures masked == AcMasked(words, low)
  {
    trace := AcTrace(words, low);
    masked := AcMasked(words, low);
  }

  lemma AcParts(words: set<string>, low: string, left: string, right: string, d: nat)
    returns (m: set<int>, l: set<int>, r: set<int>)
    requires |left| < |low| && Free(words, low, |left|) && d == |left| + 1
    requires left == low[..|left|] && right == low[d..]
    ensures m == AcMasked(words, low) && l == AcMasked(words, left) && r == AcMasked(words, right)
    ensures |left| !in m && forall k :: 0 <= k < |left| ==> (k in l <==> k in m)
    ensures forall k :: 0 <= k < |right| ==> Agree(r, m, d, k)
  {
    var whole, before, behind;
    whole, m := AcMaskedTrace(words, low);
    before, l := AcMaskedTrace(words, left);
    behind, r := AcMaskedTrace(words, right);
    PartsMasked(words, low, left, right, d, whole, before, behind);
  }

  /** The automaton's output falls apart in the same way. */
  lemma AcOutputSplits(words: set<string>, text: string, p: nat)
    requires p < |text|
    requires forall i, j :: 0 <= i <= p < j <= |text| ==> Lower(text)[i..j] !in words
    ensures AcOutput(words, text) == AcOutput(words, text[..p]) + [text[p]] + AcOutput(words, text[p + 1..])
  {
    var low := Lower(text);
    LowerParts(text, p);
    LowerParts(text, p + 1);
    var m, l, r := AcParts(words, low, low[..p], low[p + 1..], p + 1);
    MaskSplits(text, m, text[..p], l, 0, p);
    MaskShifts(text, m, text[p + 1..], r, p + 1);
    Regroup(AcOutput(words, text[..p]), [text[p]], AcOutput(words, text[p + 1..]));
  }
}
