/** Character-level preprocessing of words and messages: `strip()` and `lower()`
    restricted to ASCII, where lowering never changes the length of a string. */
module Text {

  function LowerChar(c: char): char {
    if 'A' <= c <= 'Z' then (c as int + 32) as char else c
  }

  function Lower(s: string): (r: string)
    ensures |r| == |s|
    ensures forall i :: 0 <= i < |s| ==> r[i] == LowerChar(s[i])
  {
    seq(|s|, i requires 0 <= i < |s| => LowerChar(s[i]))
  }

  predicate IsSpace(c: char) {
    c == ' ' || 9 <= c as int <= 13 || 28 <= c as int <= 31
  }

  function StripLeft(s: string): string {
    if s != [] && IsSpace(s[0]) then StripLeft(s[1..]) else s
  }

  function StripRight(s: string): string {
    if s != [] && IsSpace(s[|s| - 1]) then StripRight(s[..|s| - 1]) else s
  }

  /** What a loader keeps of one raw word; the empty result is skipped by both filters. */
  function Normalise(word: string): string {
    Lower(StripRight(StripLeft(word)))
  }

  /** The dictionary entries contributed by one call of `load`. */
  function Normalised(raw: seq<string>): set<string> {
    set w | w in raw && Normalise(w) != [] :: Normalise(w)
  }

  /** Entries a filter can hold: non-empty and already lower case. */
  ghost predicate Normal(words: set<string>) {
    forall w :: w in words ==> w != [] && Lower(w) == w
  }

  lemma NormalisedAppend(a: seq<string>, b: seq<string>)
    ensures Normalised(a + b) == Normalised(a) + Normalised(b)
  {
  }

  /** The effect of one more raw word, skipped when nothing is left of it. */
  lemma NormalisedSnoc(raw: seq<string>, i: nat)
    requires i < |raw|
    ensures var w := Normalise(raw[i]);
            Normalised(raw[..i + 1]) == Normalised(raw[..i]) + (if w == [] then {} else {w}) &&
            Lower(w) == w
  {
  }

  // ----- what lowering and stripping mean, on characters

  /** Lowering turns every capital into its small letter and leaves all else alone. */
  lemma LowerExact(s: string, i: nat)
    requires i < |s|
    ensures var c, r := s[i] as int, Lower(s)[i] as int;
            r == (if 65 <= c <= 90 then c + 32 else c) && !(65 <= r <= 90)
  {
  }

  /** Two texts have the same lower-case form if and only if they differ in case only. */
  lemma LowerSameExactly(s: string, t: string)
    ensures Lower(s) == Lower(t) <==>
              |s| == |t| && forall i :: 0 <= i < |s| ==>
                s[i] == t[i] || (65 <= s[i] as int <= 90 && t[i] as int == s[i] as int + 32) ||
                (65 <= t[i] as int <= 90 && s[i] as int == t[i] as int + 32)
  {
    if Lower(s) == Lower(t) {
      assert forall i :: 0 <= i < |s| ==> Lower(s)[i] == Lower(t)[i];
    }
  }

  lemma {:induction false} StripLeftExact(s: string) returns (k: nat)
    ensures k <= |s| && StripLeft(s) == s[k..]
    ensures forall i :: 0 <= i < k ==> IsSpace(s[i])
    ensures k < |s| ==> !IsSpace(s[k])
  {
    k := 0;
    if s != [] && IsSpace(s[0]) {
      k := StripLeftExact(s[1..]);
      assert s[1..][k..] == s[k + 1..];
      assert forall i :: 0 < i < k + 1 ==> s[i] == s[1..][i - 1];
      k := k + 1;
    }
  }

  lemma {:induction false} StripRightExact(s: string) returns (k: nat)
    ensures k <= |s| && StripRight(s) == s[..k]
    ensures forall i :: k <= i < |s| ==> IsSpace(s[i])
    ensures 0 < k ==> !IsSpace(s[k - 1])
  {
    k := |s|;
    if s != [] && IsSpace(s[|s| - 1]) {
      k := StripRightExact(s[..|s| - 1]);
      assert s[..|s| - 1][..k] == s[..k];
    }
  }

  lemma SpaceCodes(c: char)
    ensures IsSpace(c) <==> c as int in {9, 10, 11, 12, 13, 28, 29, 30, 31, 32}
  {
  }

  /** A normalised word is the lower-case form of a middle piece of the raw word: only white
      space is cut off at the ends, and none is left there. */
  lemma NormaliseExact(word: string) returns (a: nat, b: nat)
    ensures a <= b <= |word| && Normalise(word) == Lower(word[a..b])
    ensures forall i :: (0 <= i < a || b <= i < |word|) ==>
              word[i] as int in {9, 10, 11, 12, 13, 28, 29, 30, 31, 32}
    ensures a < b ==>
              word[a] as int !in {9, 10, 11, 12, 13, 28, 29, 30, 31, 32} &&
              word[b - 1] as int !in {9, 10, 11, 12, 13, 28, 29, 30, 31, 32}
  {
    a := StripLeftExact(word);
    var k := StripRightExact(word[a..]);
    b := a + k;
    assert word[a..][..k] == word[a..b];
    assert forall i :: b <= i < |word| ==> word[i] == word[a..][i - a];
    assert k > 0 ==> word[b - 1] == word[a..][k - 1];
    assert k > 0 ==> word[a] == word[a..][0];
  }

  /** A load contributes the normalised form of each raw word of which something is left. */
  lemma NormalisedExact(raw: seq<string>, w: string)
    ensures w in Normalised(raw) <==> w != "" && exists i :: 0 <= i < |raw| && Normalise(raw[i]) == w
  {
    if w in Normalised(raw) {
      var x :| x in raw && Normalise(x) != [] && Normalise(x) == w;
      var i :| 0 <= i < |raw| && raw[i] == x;
      assert Normalise(raw[i]) == w;
    }
  }
}
